/**
 The recursive planner of `oracle.rs`. Whether a call is made and how long a
 method works are drawn at random; here they are arbitrary, so every statement
 holds for every outcome.
 */
module OraclePlanner {
  import opened Collections
  import opened Graphs
  import opened OraclePlan
  import opened Overhead
  import opened CallGraph
  import opened OracleValidator
  import Calibrator

  datatype Estimate = Estimate(defaultOverhead: nat, serviceOverheads: map<string, nat>,
                               methodOverheads: map<string, nat>)

  /** The configured overhead of a method: a default, one for its service and one for itself. */
  function OverheadFor(est: Estimate, key: CallTarget): nat {
    est.defaultOverhead + GetOr(est.serviceOverheads, key.serviceId, 0) + GetOr(est.methodOverheads, Format(key), 0)
  }

  const NO_ESTIMATE := Estimate(0, map[], map[])

  /** Without configuration there is no overhead, and raising the default raises every method's overhead. */
  lemma DefaultOverhead(est: Estimate, key: CallTarget, d: nat)
    ensures OverheadFor(NO_ESTIMATE, key) == 0
    ensures OverheadFor(est.(defaultOverhead := est.defaultOverhead + d), key) == OverheadFor(est, key) + d
  {
  }

  /** Raising the entry of a service raises the overhead of exactly its methods. */
  lemma ServiceOverhead(est: Estimate, service: string, key: CallTarget, d: nat)
    ensures var raised := est.serviceOverheads[service := GetOr(est.serviceOverheads, service, 0) + d];
            OverheadFor(est.(serviceOverheads := raised), key) ==
            OverheadFor(est, key) + if key.serviceId == service then d else 0
  {
  }

  /** Raising the entry of a method raises its overhead, and no other, as far as names are read back. */
  lemma MethodOverhead(est: Estimate, method': CallTarget, key: CallTarget, d: nat)
    requires WellNamed(method') && WellNamed(key)
    ensures var name := method'.serviceId + "::" + method'.methodName;
            var raised := est.methodOverheads[name := GetOr(est.methodOverheads, name, 0) + d];
            OverheadFor(est.(methodOverheads := raised), key) ==
            OverheadFor(est, key) + if key == method' then d else 0
  {
    ParseUndoesFormat(method');
    ParseUndoesFormat(key);
    hide ParseServiceMethod;
  }

  datatype PlanError = Recursive(key: CallTarget) | MissingMethod(key: CallTarget) | MissingEntryPoint(name: string)

  // ----- what a plan of a sequence is

  /** Step by step, the plan makes the first call or none, and its calls are plans of their methods. */
  ghost predicate Follows(methods: Methods, est: Estimate, sequence: Sequence, p: Plan)
    decreases p
  {
    && |p.steps| == |sequence|
    && forall i :: 0 <= i < |sequence| ==> StepFollows(methods, est, sequence[i], p.steps[i])
  }

  ghost predicate StepFollows(methods: Methods, est: Estimate, step: seq<ParsedCall>, planned: Step)
    decreases planned
  {
    && |planned.calls| <= 1
    && (|step| == 0 || step[0].probability <= 0.0 ==> planned.calls == [])
    && (|step| > 0 && step[0].probability >= 1.0 ==> |planned.calls| == 1)
    && (|step| > 0 && |planned.calls| == 1 ==>
          var call := planned.calls[0];
          assert call.plan < call;
          && call.target == step[0].target && call.target in methods
          && PlannedFor(methods, est, call.target, call.plan))
  }

  ghost predicate PlannedFor(methods: Methods, est: Estimate, key: CallTarget, p: Plan)
    requires key in methods
    decreases p, 0
  {
    && p.overhead == OverheadFor(est, key)
    && |p.steps| == |methods[key]|
    && forall i :: 0 <= i < |p.steps| ==> StepFollows(methods, est, methods[key][i], p.steps[i])
  }

  // ----- what the estimate of a plan is made of

  /** The methods that a plan calls, in preorder. */
  function Called(steps: seq<Step>): seq<CallTarget> {
    if steps == [] then [] else CalledOf(steps[0].calls) + Called(steps[1..])
  }

  function CalledOf(calls: seq<Call>): seq<CallTarget> {
    if calls == [] then [] else
      assert calls[0].plan < calls[0];
      [calls[0].target] + Called(calls[0].plan.steps) + CalledOf(calls[1..])
  }

  /** The configured overheads of some methods, added up. */
  function Configured(est: Estimate, keys: seq<CallTarget>): nat {
    if keys == [] then 0 else OverheadFor(est, keys[0]) + Configured(est, keys[1..])
  }

  lemma {:induction false} ConfiguredAppend(est: Estimate, a: seq<CallTarget>, b: seq<CallTarget>)
    ensures Configured(est, a + b) == Configured(est, a) + Configured(est, b)
  {
    if a == [] {
      assert a + b == b;
    } else {
      assert (a + b)[1..] == a[1..] + b;
      ConfiguredAppend(est, a[1..], b);
    }
  }

  lemma {:induction false} DrawnOverheads(methods: Methods, est: Estimate, sequence: Sequence, steps: seq<Step>)
    requires |steps| == |sequence|
    requires forall i :: 0 <= i < |steps| ==> StepFollows(methods, est, sequence[i], steps[i])
    ensures Sum(FlatSteps(steps)) == Configured(est, Called(steps))
    decreases steps
  {
    if steps != [] {
      hide StepFollows, OverheadFor;
      DrawnStep(methods, est, sequence[0], steps[0]);
      forall i | 0 <= i < |steps| - 1 ensures StepFollows(methods, est, sequence[1..][i], steps[1..][i]) {
        assert StepFollows(methods, est, sequence[i + 1], steps[i + 1]);
      }
      DrawnOverheads(methods, est, sequence[1..], steps[1..]);
      SumAppend(FlatCalls(steps[0].calls), FlatSteps(steps[1..]));
      ConfiguredAppend(est, CalledOf(steps[0].calls), Called(steps[1..]));
    }
  }

  lemma {:induction false} DrawnStep(methods: Methods, est: Estimate, step: seq<ParsedCall>, planned: Step)
    requires StepFollows(methods, est, step, planned)
    ensures Sum(FlatCalls(planned.calls)) == Configured(est, CalledOf(planned.calls))
    decreases planned
  {
    var calls := planned.calls;
    if calls != [] {
      var p, key := calls[0].plan, calls[0].target;
      assert p < calls[0] && calls == [calls[0]];
      assert PlannedFor(methods, est, key, p) && p.overhead == OverheadFor(est, key);
      Overhead.OneCall(calls[0]);
      assert CalledOf(calls[1..]) == [] && CalledOf(calls) == [key] + Called(p.steps);
      hide StepFollows, OverheadFor;
      DrawnOverheads(methods, est, methods[key], p.steps);
      SumAppend([p.overhead], FlatSteps(p.steps));
      ConfiguredAppend(est, [key], Called(p.steps));
      assert Sum([p.overhead]) == p.overhead && Configured(est, [key]) == OverheadFor(est, key);
    }
  }

  /** The estimate of a drawn plan exceeds its actual work by the configured overheads of the calls it makes. */
  lemma DrawnEstimate(methods: Methods, est: Estimate, sequence: Sequence, p: Plan)
    requires Follows(methods, est, sequence, p) && Linear(p)
    ensures Est(p) == Actual(p) + p.overhead + Configured(est, Called(p.steps))
  {
    assert forall i :: 0 <= i < |p.steps| ==> StepFollows(methods, est, sequence[i], p.steps[i]);
    DrawnOverheads(methods, est, sequence, p.steps);
    LinearEst(p);
    LinearActual(p);
    SumAppend([p.overhead], FlatSteps(p.steps));
  }

  /** Every first call of the sequence leads below all methods being visited. */
  ghost predicate LeadsBelow(methods: Methods, rank: map<CallTarget, int>, sequence: Sequence,
                             visiting: set<CallTarget>)
  {
    forall i :: 0 <= i < |sequence| && |sequence[i]| > 0 ==> Below(methods, rank, sequence[i][0].target, visiting)
  }

  ghost predicate Below(methods: Methods, rank: map<CallTarget, int>, key: CallTarget, visiting: set<CallTarget>) {
    key in methods && key in rank && forall v :: v in visiting ==> v in rank && rank[v] > rank[key]
  }

  lemma {:induction false} HintedAt(steps: seq<Step>, localWork: nat, i: nat)
    requires i < |steps|
    ensures |HintedSteps(steps, localWork)| == |steps|
    ensures var c := HintedSteps(steps, localWork)[i].calls;
            && |c| == |steps[i].calls|
            && (|c| == 1 ==> c[0].target == steps[i].calls[0].target && c[0].plan == steps[i].calls[0].plan)
  {
    if i > 0 {
      HintedAt(steps[1..], localWork, i - 1);
    } else if |steps| > 1 {
      HintedAt(steps[1..], localWork, 0);
    }
  }

  lemma {:induction false} LinearFromSteps(steps: seq<Step>)
    requires forall i :: 0 <= i < |steps| ==>
               |steps[i].calls| <= 1 && (|steps[i].calls| == 1 ==> Linear(steps[i].calls[0].plan))
    ensures LinearSteps(steps)
  {
    if steps != [] {
      assert forall i :: 0 <= i < |steps| - 1 ==> steps[1..][i] == steps[i + 1];
      LinearFromSteps(steps[1..]);
    }
  }

  /** A planned step: it follows the graph, and the plan of its call is linear with correct hints. */
  ghost predicate StepOk(methods: Methods, est: Estimate, step: seq<ParsedCall>, planned: Step) {
    && StepFollows(methods, est, step, planned)
    && (|planned.calls| == 1 ==> HintsOk(planned.calls[0].plan) && Linear(planned.calls[0].plan))
  }

  lemma NoCallOk(methods: Methods, est: Estimate, step: seq<ParsedCall>)
    requires step == [] || step[0].probability < 1.0
    ensures StepOk(methods, est, step, Step([]))
  {
  }

  lemma CallOk(methods: Methods, est: Estimate, step: seq<ParsedCall>, p: Plan)
    requires step != [] && step[0].probability > 0.0 && step[0].target in methods
    requires PlannedFor(methods, est, step[0].target, p) && HintsOk(p) && Linear(p)
    ensures StepOk(methods, est, step, Step([Call(step[0].target, NO_HINT, p)]))
  {
  }

  /** Attaching the hints completes the plan of a sequence. */
  lemma Complete(methods: Methods, est: Estimate, sequence: Sequence, steps: seq<Step>, localWork: nat)
    requires |steps| == |sequence|
    requires forall i :: 0 <= i < |steps| ==> StepOk(methods, est, sequence[i], steps[i])
    ensures var p := Plan(localWork, 0, HintedSteps(steps, localWork));
            Follows(methods, est, sequence, p) && HintsOk(p) && Linear(p)
  {
    var hinted := HintedSteps(steps, localWork);
    if steps != [] {
      HintedAt(steps, localWork, 0);
    }
    forall i | 0 <= i < |steps|
      ensures StepFollows(methods, est, sequence[i], hinted[i])
      ensures |hinted[i].calls| <= 1 && (|hinted[i].calls| == 1 ==> Linear(hinted[i].calls[0].plan))
    {
      assert StepOk(methods, est, sequence[i], steps[i]);
      HintedAt(steps, localWork, i);
    }
    LinearFromSteps(hinted);
    assert ChildrenHintsOk(steps) by {
      forall i, j | 0 <= i < |steps| && 0 <= j < |steps[i].calls| ensures HintsOk(steps[i].calls[j].plan) {
        assert StepOk(methods, est, sequence[i], steps[i]);
      }
    }
    HintedStepsOk(steps, localWork);
  }

  /** A call is made when a number drawn from 0 up to 1 lies below its probability. */
  method ShouldMakeCall(probability: real) returns (make: bool, ghost draw: real)
    ensures 0.0 <= draw < 1.0
    ensures make <==> draw < probability
  {
    var drawn: real :| 0.0 <= drawn < 1.0;
    make, draw := drawn < probability, drawn;
  }

  /** The plan has a call in exactly the steps whose number was drawn below the probability of their first call. */
  ghost predicate CallsAsDrawn(sequence: Sequence, draws: seq<real>, steps: seq<Step>) {
    && |draws| == |steps| <= |sequence|
    && (forall d :: d in draws ==> 0.0 <= d < 1.0)
    && forall i :: 0 <= i < |steps| ==>
         (steps[i].calls == [] <==> sequence[i] == [] || draws[i] >= sequence[i][0].probability)
  }

  /** The first steps of a sequence are planned. */
  ghost predicate PlannedSteps(methods: Methods, est: Estimate, sequence: Sequence, draws: seq<real>, steps: seq<Step>)
  {
    && CallsAsDrawn(sequence, draws, steps)
    && forall k :: 0 <= k < |steps| ==> StepOk(methods, est, sequence[k], steps[k])
  }

  lemma PlannedNext(methods: Methods, est: Estimate, sequence: Sequence, draws: seq<real>, steps: seq<Step>,
                    draw: real, planned: Step)
    requires PlannedSteps(methods, est, sequence, draws, steps) && |steps| < |sequence| && 0.0 <= draw < 1.0
    requires StepOk(methods, est, sequence[|steps|], planned)
    requires planned.calls == [] <==> sequence[|steps|] == [] || draw >= sequence[|steps|][0].probability
    ensures PlannedSteps(methods, est, sequence, draws + [draw], steps + [planned])
  {
    hide StepOk;
  }

  lemma HintsKeepCalls(sequence: Sequence, draws: seq<real>, steps: seq<Step>, localWork: nat)
    requires CallsAsDrawn(sequence, draws, steps) && |steps| == |sequence|
    ensures CallsAsDrawn(sequence, draws, HintedSteps(steps, localWork))
  {
    if steps != [] {
      HintedAt(steps, localWork, 0);
    }
    forall i | 0 <= i < |steps| ensures |HintedSteps(steps, localWork)[i].calls| == |steps[i].calls| {
      HintedAt(steps, localWork, i);
    }
  }

  /** Plans a method unless it is already being planned; `visiting` is restored on success. */
  method PlanMethod(methods: Methods, est: Estimate, key: CallTarget, visiting0: set<CallTarget>,
                    ghost rank: map<CallTarget, int>)
    returns (r: Result<Plan, PlanError>, visiting: set<CallTarget>)
    ensures r.Ok? ==> visiting == visiting0
    ensures r.Ok? ==> key in methods && PlannedFor(methods, est, key, r.value) && HintsOk(r.value) && Linear(r.value)
    ensures IsRanking(CallEdges(methods), rank) && rank.Keys == methods.Keys && Below(methods, rank, key, visiting0) ==>
              r.Ok?
    decreases |methods.Keys - visiting0|, 0
  {
    visiting := visiting0;
    if key in visiting {
      return Err(Recursive(key)), visiting;
    }
    visiting := visiting + {key};
    if key !in methods {
      return Err(MissingMethod(key)), visiting;
    }
    var sample: nat := *;
    var overhead := OverheadFor(est, key);
    assert methods.Keys - visiting == (methods.Keys - visiting0) - {key};
    if IsRanking(CallEdges(methods), rank) && rank.Keys == methods.Keys && Below(methods, rank, key, visiting0) {
      CalleesBelow(methods, rank, key, visiting0);
    }
    ghost var draws;
    r, visiting, draws := PlanSequence(methods, est, methods[key], sample, visiting, rank);
    visiting := visiting - {key};
    if r.Ok? {
      r := Ok(r.value.(overhead := overhead));
    }
  }

  lemma CalleesBelow(methods: Methods, rank: map<CallTarget, int>, key: CallTarget, visiting: set<CallTarget>)
    requires IsRanking(CallEdges(methods), rank) && rank.Keys == methods.Keys && Below(methods, rank, key, visiting)
    ensures LeadsBelow(methods, rank, methods[key], visiting + {key})
  {
    forall i | 0 <= i < |methods[key]| && |methods[key][i]| > 0
      ensures Below(methods, rank, methods[key][i][0].target, visiting + {key})
    {
      assert (key, methods[key][i][0].target) in CallEdges(methods);
    }
  }

  lemma PlanCompleted(methods: Methods, est: Estimate, sequence: Sequence, draws: seq<real>, steps: seq<Step>,
                      localWork: nat)
    requires PlannedSteps(methods, est, sequence, draws, steps) && |steps| == |sequence|
    ensures var p := Plan(localWork, 0, HintedSteps(steps, localWork));
            CallsAsDrawn(sequence, draws, p.steps) && Follows(methods, est, sequence, p) && HintsOk(p) && Linear(p)
  {
    hide StepOk, Follows, HintsOk, Linear, CallsAsDrawn;
    HintsKeepCalls(sequence, draws, steps, localWork);
    Complete(methods, est, sequence, steps, localWork);
  }

  /** Plans the steps in order, drawing for each whether its call is made. */
  method PlanSequence(methods: Methods, est: Estimate, sequence: Sequence, localWork: nat, visiting0: set<CallTarget>,
                      ghost rank: map<CallTarget, int>)
    returns (r: Result<Plan, PlanError>, visiting: set<CallTarget>, ghost draws: seq<real>)
    ensures r.Ok? ==> CallsAsDrawn(sequence, draws, r.value.steps)
    ensures r.Ok? ==> visiting == visiting0 && r.value.localWork == localWork && r.value.overhead == 0
    ensures r.Ok? ==> Follows(methods, est, sequence, r.value) && HintsOk(r.value) && Linear(r.value)
    ensures IsRanking(CallEdges(methods), rank) && rank.Keys == methods.Keys ==>
              LeadsBelow(methods, rank, sequence, visiting0) ==> r.Ok?
    decreases |methods.Keys - visiting0|, 1
  {
    visiting, draws := visiting0, [];
    var steps: seq<Step> := [];
    assert PlannedSteps(methods, est, sequence, draws, steps);
    hide PlannedSteps, StepOk, CallsAsDrawn, HintsOk, Linear, Below, PlannedFor, StepFollows, Follows, IsRanking;
    for i := 0 to |sequence|
      invariant |steps| == i && visiting == visiting0
      invariant PlannedSteps(methods, est, sequence, draws, steps)
    {
      var planned: seq<Call> := [];
      ghost var draw := 0.0;
      if |sequence[i]| > 0 {
        var call := sequence[i][0];
        var make, drawn := ShouldMakeCall(call.probability);
        draw := drawn;
        if make {
          var plan, v := PlanMethod(methods, est, call.target, visiting, rank);
          if plan.Err? {
            return Err(plan.error), v, draws;
          }
          visiting := v;
          planned := [Call(call.target, NO_HINT, plan.value)];
          CallOk(methods, est, sequence[i], plan.value);
        } else {
          NoCallOk(methods, est, sequence[i]);
        }
      }
      if sequence[i] == [] {
        NoCallOk(methods, est, sequence[i]);
      }
      PlannedNext(methods, est, sequence, draws, steps, draw, Step(planned));
      steps, draws := steps + [Step(planned)], draws + [draw];
    }
    PlanCompleted(methods, est, sequence, draws, steps, localWork);
    var hinted := AttachHints(localWork, steps);
    return Ok(Plan(localWork, 0, hinted)), visiting, draws;
  }

  // ----- the planner

  class OraclePlanner {
    const entryPoints: map<string, Sequence>
    const methods: Methods
    const estimate: Estimate
    const calibrator: Calibrator.OnlineOverheadCalibrator
    ghost const rank: map<CallTarget, int>

    ghost predicate Valid() {
      IsRanking(CallEdges(methods), rank) && rank.Keys == methods.Keys
    }

    constructor (parsed: Parsed, estimate: Estimate, config: Calibrator.Config, ghost rank: map<CallTarget, int>)
      requires IsRanking(CallEdges(Table(parsed.methods)), rank) && rank.Keys == Table(parsed.methods).Keys
      ensures Valid() && this.estimate == estimate
      ensures entryPoints == parsed.entryPoints && methods == Table(parsed.methods)
      ensures fresh(calibrator) && calibrator.Valid() && calibrator.config == config
      ensures calibrator.overheads == map[] && calibrator.history == map[]
    {
      this.entryPoints, this.estimate, this.rank := parsed.entryPoints, estimate, rank;
      var table := BuildTable(parsed.methods);
      methods := table;
      calibrator := new Calibrator.OnlineOverheadCalibrator(config);
    }

    /** Plans an entry point and adds the overhead measured so far. */
    method PlanEntryPoint(entryPoint: string) returns (r: Result<Plan, PlanError>)
      requires Valid()
      ensures entryPoint !in entryPoints ==> r == Err(MissingEntryPoint(entryPoint))
      ensures entryPoint in entryPoints && FirstCallsDefined(entryPoints[entryPoint], methods) ==> r.Ok?
      ensures r.Ok? ==> HintsOk(r.value) && exists base ::
                && Follows(methods, estimate, entryPoints[entryPoint], base)
                && Linear(base) && HintsOk(base) && base.localWork == 0 && base.overhead == 0
                && Actual(r.value) == Actual(base)
                && (if calibrator.config.enabled && calibrator.CurrentOverhead(entryPoint) > 0
                    then Calibrator.Spread(base, r.value, calibrator.config.placement,
                                           calibrator.CurrentOverhead(entryPoint))
                    else r.value == base)
                && Est(base) == Actual(base) + Configured(estimate, Called(base.steps))
                && Est(r.value) == Est(base) +
                   if calibrator.config.enabled && CountCalls(base) > 0
                   then calibrator.CurrentOverhead(entryPoint) else 0
    {
      if entryPoint !in entryPoints {
        return Err(MissingEntryPoint(entryPoint));
      }
      var sequence := entryPoints[entryPoint];
      if FirstCallsDefined(sequence, methods) {
        assert LeadsBelow(methods, rank, sequence, {});
      }
      var visiting;
      ghost var draws;
      r, visiting, draws := PlanSequence(methods, estimate, sequence, 0, {}, rank);
      if r.Err? {
        return;
      }
      ghost var base := r.value;
      hide Follows, HintsOk, Linear, Actual, Est, CountCalls, Configured, Called, IsRanking;
      DrawnEstimate(methods, estimate, sequence, base);
      var plan := calibrator.Apply(entryPoint, r.value);
      r := Ok(plan);
    }
  }

  predicate FirstCallsDefined(sequence: Sequence, methods: Methods) {
    forall i :: 0 <= i < |sequence| && |sequence[i]| > 0 ==> sequence[i][0].target in methods
  }

  // ----- which names keep their meaning

  /** No name reads as a method that does not exist: it does not parse, or it parses as a method of the list. */
  predicate SafeNames(ids: seq<CallTarget>) {
    forall i :: 0 <= i < |ids| ==>
      ParseServiceMethod(Format(ids[i])).Ok? ==> ParseServiceMethod(Format(ids[i])).value in ids
  }

  function Ids(cfg: Config): seq<CallTarget> {
    seq(|cfg.methods|, i requires 0 <= i < |cfg.methods| => cfg.methods[i].id)
  }

  lemma WellNamedIsSafe(ids: seq<CallTarget>)
    requires forall i :: 0 <= i < |ids| ==> WellNamed(ids[i])
    ensures SafeNames(ids)
  {
    forall i | 0 <= i < |ids| ensures ParseServiceMethod(Format(ids[i])) == Ok(ids[i]) {
      ParseUndoesFormat(ids[i]);
    }
  }

  lemma TableOfParse(cfg: Config, parsed: Parsed, k: CallTarget)
    requires IsParse(cfg, parsed)
    ensures k in Table(parsed.methods) <==> k in Ids(cfg)
  {
    TableKeys(parsed.methods, k);
    forall i | 0 <= i < |cfg.methods| ensures parsed.methods[i].id == Ids(cfg)[i] {
      assert MethodParsedFrom(parsed.methods[i], cfg.methods[i]);
    }
  }

  /** With safe names every parsed target is a defined method. */
  lemma ParsedTargetsDefined(cfg: Config, parsed: Parsed, raw: RawSequence, sequence: Sequence)
    requires IsParse(cfg, parsed) && SafeNames(Ids(cfg))
    requires TargetsIn(raw, ValidTargets(cfg)) && ParsedFrom(sequence, raw)
    ensures FirstCallsDefined(sequence, Table(parsed.methods))
  {
    forall i | 0 <= i < |sequence| && |sequence[i]| > 0 ensures sequence[i][0].target in Table(parsed.methods) {
      assert StepParsedFrom(sequence[i], raw[i]);
      var k :| 0 <= k < |cfg.methods| && Format(cfg.methods[k].id) == raw[i][0].target;
      assert Ids(cfg)[k] == cfg.methods[k].id;
      TableOfParse(cfg, parsed, sequence[i][0].target);
    }
  }

  // ----- loading

  /** Everything that loading a configuration checks. */
  ghost predicate Acceptable(cfg: Config) {
    Readable(cfg) && exists parsed :: IsParse(cfg, parsed) && Supported(parsed)
  }

  ghost predicate EntryPointsDefined(parsed: Parsed) {
    forall e :: e in parsed.entryPoints ==> FirstCallsDefined(parsed.entryPoints[e], Table(parsed.methods))
  }

  /** The methods `ids`, none of which calls anything, and the entry point "a" that calls `k` for sure. */
  function OneCall(ids: seq<CallTarget>, k: CallTarget): Config {
    Config(map["a" := [[RawCall(Format(k), 1.0)]]], seq(|ids|, i requires 0 <= i < |ids| => MethodDef(ids[i], [])))
  }

  function OneCallParsed(ids: seq<CallTarget>, target: CallTarget): Parsed {
    Parsed(map["a" := [[ParsedCall(target, 1.0)]]], seq(|ids|, i requires 0 <= i < |ids| => ParsedMethod(ids[i], [])))
  }

  lemma {:induction false} NoCalls(methods: seq<ParsedMethod>)
    requires forall i :: 0 <= i < |methods| ==> methods[i].sequence == []
    ensures forall k :: k in Table(methods) ==> Table(methods)[k] == []
  {
    if methods != [] {
      NoCalls(methods[..|methods| - 1]);
    }
  }

  lemma SureCallIsMade(methods: Methods, est: Estimate, sequence: Sequence, p: Plan)
    requires Follows(methods, est, sequence, p)
    requires |sequence| > 0 && |sequence[0]| > 0 && sequence[0][0].probability >= 1.0
    ensures sequence[0][0].target in methods
  {
    assert StepFollows(methods, est, sequence[0], p.steps[0]);
  }

  lemma OneCallParses(ids: seq<CallTarget>, k: CallTarget, target: CallTarget)
    requires k in ids && ParseServiceMethod(Format(k)) == Ok(target)
    ensures Ids(OneCall(ids, k)) == ids && Readable(OneCall(ids, k))
    ensures IsParse(OneCall(ids, k), OneCallParsed(ids, target))
  {
    hide ParseServiceMethod, Format;
    var cfg, parsed := OneCall(ids, k), OneCallParsed(ids, target);
    assert Ids(cfg) == ids;
    var raw, sequence := cfg.entryPoints["a"], parsed.entryPoints["a"];
    assert Format(k) in ValidTargets(cfg) by {
      var i :| 0 <= i < |ids| && ids[i] == k;
      assert cfg.methods[i].id == k;
    }
    assert TargetsIn(raw, ValidTargets(cfg)) && Parsable(raw);
    assert StepParsedFrom(sequence[0], raw[0]) && ParsedFrom(sequence, raw);
  }

  lemma OneCallSupported(ids: seq<CallTarget>, target: CallTarget)
    ensures Supported(OneCallParsed(ids, target))
  {
    var parsed := OneCallParsed(ids, target);
    NoCalls(parsed.methods);
    assert ShapeOk([]) && ShapeOk(parsed.entryPoints["a"]);
    hide Table, ShapeOk, HasCycle;
    RankedHasNoCycle(CallEdges(Table(parsed.methods)), map[]);
  }

  /** A method whose name reads as another target is accepted, and a sure call of it cannot be planned. */
  lemma MisreadCallAccepted(ids: seq<CallTarget>, k: CallTarget, target: CallTarget)
    requires k in ids && ParseServiceMethod(Format(k)) == Ok(target) && target !in ids
    ensures Acceptable(OneCall(ids, k)) && IsParse(OneCall(ids, k), OneCallParsed(ids, target))
    ensures var parsed := OneCallParsed(ids, target);
            && !FirstCallsDefined(parsed.entryPoints["a"], Table(parsed.methods))
            && forall est, p :: !Follows(Table(parsed.methods), est, parsed.entryPoints["a"], p)
  {
    var cfg, parsed := OneCall(ids, k), OneCallParsed(ids, target);
    OneCallParses(ids, k, target);
    OneCallSupported(ids, target);
    TableOfParse(cfg, parsed, target);
    var sequence: Sequence := parsed.entryPoints["a"];
    assert sequence[0][0].target == target;
    hide IsParse, Supported, Readable, Table, Follows, OneCall, OneCallParsed, Ids;
    forall est, p ensures !Follows(Table(parsed.methods), est, sequence, p) {
      if Follows(Table(parsed.methods), est, sequence, p) {
        SureCallIsMade(Table(parsed.methods), est, sequence, p);
      }
    }
  }

  /** The names of the methods are safe exactly when every accepted configuration with them can be planned. */
  lemma SafeNamesExactly(ids: seq<CallTarget>)
    ensures SafeNames(ids) <==>
            forall cfg, parsed {:trigger IsParse(cfg, parsed)} ::
              Ids(cfg) == ids && Readable(cfg) && IsParse(cfg, parsed) && Supported(parsed) ==>
                EntryPointsDefined(parsed)
  {
    if SafeNames(ids) {
      forall cfg, parsed | Ids(cfg) == ids && Readable(cfg) && IsParse(cfg, parsed) ensures EntryPointsDefined(parsed) {
        forall e | e in cfg.entryPoints ensures FirstCallsDefined(parsed.entryPoints[e], Table(parsed.methods)) {
          ParsedTargetsDefined(cfg, parsed, cfg.entryPoints[e], parsed.entryPoints[e]);
        }
      }
    } else {
      var i :| 0 <= i < |ids| && ParseServiceMethod(Format(ids[i])).Ok?
               && ParseServiceMethod(Format(ids[i])).value !in ids;
      var target := ParseServiceMethod(Format(ids[i])).value;
      OneCallParses(ids, ids[i], target);
      OneCallSupported(ids, target);
      MisreadCallAccepted(ids, ids[i], target);
      assert IsParse(OneCall(ids, ids[i]), OneCallParsed(ids, target));
    }
  }

  /** The method "b" of the service "a:" is read as the method ":b" of "a", which is not defined. */
  lemma TrailingColonIsUnsafe()
    ensures !SafeNames([CallTarget("a:", "b")])
  {
    MisleadingName();
    var ids := [CallTarget("a:", "b")];
    assert |ids[0].serviceId| == 2;
    assert ParseServiceMethod(Format(ids[0])).value !in ids;
  }

  /** Loads a configuration and makes a planner for it, exactly when it is acceptable. */
  method Load(cfg: Config, estimate: Estimate, config: Calibrator.Config)
    returns (planner: OraclePlanner?, ghost parsed: Parsed)
    ensures planner != null <==> Acceptable(cfg)
    ensures planner != null ==>
              && IsParse(cfg, parsed) && Supported(parsed)
              && planner.entryPoints == parsed.entryPoints && planner.methods == Table(parsed.methods)
              && planner.estimate == estimate && planner.calibrator.config == config
    ensures planner != null ==>
              && fresh(planner) && fresh(planner.calibrator) && planner.Valid() && planner.calibrator.Valid()
              && planner.calibrator.overheads == map[]
  {
    var read := ParseCallSequences(cfg);
    parsed := if read.Ok? then read.value else Parsed(map[], []);
    if read.Err? {
      return null, parsed;
    }
    var supported, rank := ValidateSupportedCallGraph(read.value);
    if supported.Err? {
      forall other | IsParse(cfg, other) ensures !Supported(other) {
        ParseUnique(cfg, other, parsed);
      }
      return null, parsed;
    }
    planner := new OraclePlanner(read.value, estimate, config, rank);
  }

  /** Every entry point of an acceptable configuration with safe names can be planned, whatever is drawn. */
  method PlanAnyEntryPoint(cfg: Config, estimate: Estimate, config: Calibrator.Config, entryPoint: string)
    returns (accepted: bool, r: Result<Plan, PlanError>)
    requires entryPoint in cfg.entryPoints
    ensures accepted <==> Acceptable(cfg)
    ensures accepted && SafeNames(Ids(cfg)) ==> r.Ok?
    ensures accepted && r.Ok? ==> HintsOk(r.value) && Linear(r.value)
    ensures accepted && r.Ok? ==>
              forall parsed :: IsParse(cfg, parsed) ==>
                Follows(Table(parsed.methods), estimate, parsed.entryPoints[entryPoint], r.value)
  {
    var planner, parsed := Load(cfg, estimate, config);
    accepted := planner != null;
    if planner == null {
      return false, Err(MissingEntryPoint(entryPoint));
    }
    SafeNamesExactly(Ids(cfg));
    assert SafeNames(Ids(cfg)) ==> EntryPointsDefined(parsed);
    r := planner.PlanEntryPoint(entryPoint);
    forall other | IsParse(cfg, other) ensures other == parsed {
      ParseUnique(cfg, other, parsed);
    }
  }
}
