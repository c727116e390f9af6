/**
 The online overhead calibrator of `oracle.rs`: an exponential moving average of
 the observed overhead of every entry point, which is added to new plans.
 Floating-point numbers are exact reals.
 */
module Calibrator {
  import opened Collections
  import opened OraclePlan
  import opened Overhead
  import opened Reals

  datatype Placement = LastCall | UniformCalls

  /** `maxOverhead == 0` means that samples are not clipped. */
  datatype Config = Config(enabled: bool, alpha: real, maxOverhead: nat, placement: Placement)

  function Clip(cfg: Config, observed: nat): nat {
    if cfg.maxOverhead > 0 && observed > cfg.maxOverhead then cfg.maxOverhead else observed
  }

  /** The smoothing factor, clamped to [0, 1]. */
  function Alpha(cfg: Config): (a: real)
    ensures 0.0 <= a <= 1.0
  {
    if cfg.alpha < 0.0 then 0.0 else if cfg.alpha > 1.0 then 1.0 else cfg.alpha
  }

  /** Rounding to the nearest natural, halves up. */
  function Round(x: real): nat {
    if x < 0.0 then 0 else (x + 0.5).Floor
  }

  /** Without a maximum samples count as they are; with one, at most as much as the maximum. */
  lemma ClipLaws(cfg: Config, observed: nat)
    ensures Clip(cfg, observed) == observed <==> cfg.maxOverhead == 0 || observed <= cfg.maxOverhead
    ensures cfg.maxOverhead > 0 && observed >= cfg.maxOverhead ==> Clip(cfg, observed) == cfg.maxOverhead
  {
  }

  /** The result is the nearest natural, and the larger one when two are equally near; nothing is below zero. */
  lemma RoundNearest(x: real)
    ensures x >= 0.0 ==> Round(x) as real - 0.5 <= x < Round(x) as real + 0.5
    ensures x < 0.5 <==> Round(x) == 0
  {
  }

  // ----- the average over a run of samples

  function Blend(cfg: Config, current: Option<real>, observed: nat): Option<real> {
    var sample := Clip(cfg, observed) as real;
    match current
    case None => Some(sample)
    case Some(c) => Some(c + Times(Alpha(cfg), sample - c))
  }

  function Average(cfg: Config, start: Option<real>, samples: seq<nat>): Option<real> {
    if samples == [] then start
    else Blend(cfg, Average(cfg, start, samples[..|samples| - 1]), samples[|samples| - 1])
  }

  lemma AverageSnoc(cfg: Config, samples: seq<nat>, observed: nat)
    ensures Average(cfg, None, samples + [observed]) == Blend(cfg, Average(cfg, None, samples), observed)
  {
    assert (samples + [observed])[..|samples|] == samples;
  }

  /** The first sample is taken as it is; each later one moves the average by the smoothing factor towards it. */
  lemma AverageMoves(cfg: Config, samples: seq<nat>, observed: nat)
    ensures samples == [] ==> Average(cfg, None, [observed]) == Some(Clip(cfg, observed) as real)
    ensures samples != [] && 0.0 <= cfg.alpha <= 1.0 ==>
              match Average(cfg, None, samples)
              case None => false
              case Some(c) => Average(cfg, None, samples + [observed]) ==
                              Some(Times(1.0 - cfg.alpha, c) + Times(cfg.alpha, Clip(cfg, observed) as real))
  {
    AverageSnoc(cfg, samples, observed);
    if samples == [] {
      assert [] + [observed] == [observed];
    } else {
      var last := samples[|samples| - 1];
      assert Average(cfg, None, samples) == Blend(cfg, Average(cfg, None, samples[..|samples| - 1]), last);
      var c := Average(cfg, None, samples).value;
      var a, x := Alpha(cfg), Clip(cfg, observed) as real;
      TimesMinus(a, x, c);
      TimesMinus(c, 1.0, a);
      TimesConstants(c);
    }
  }

  /**
   A factor of one or more keeps only the last sample; one of zero or less, for which
   nothing is recorded, would keep the first.
   */
  lemma ExtremeFactors(cfg: Config, samples: seq<nat>)
    requires samples != []
    ensures Alpha(cfg) == 0.0 <==> cfg.alpha <= 0.0
    ensures cfg.alpha >= 1.0 ==> Average(cfg, None, samples) == Some(Clip(cfg, samples[|samples| - 1]) as real)
    ensures cfg.alpha <= 0.0 ==> Average(cfg, None, samples) == Some(Clip(cfg, samples[0]) as real)
  {
    var n := |samples| - 1;
    if n > 0 {
      ExtremeFactors(cfg, samples[..n]);
      var c := Average(cfg, None, samples[..n]).value;
      TimesConstants(Clip(cfg, samples[n]) as real - c);
    } else {
      assert samples[..0] == [];
    }
  }

  /** Every average is that of the samples taken for its entry point. */
  ghost predicate AveragesOf(cfg: Config, history: map<string, seq<nat>>, averages: map<string, real>) {
    forall e :: Lookup(averages, e) == Average(cfg, None, GetOr(history, e, []))
  }

  lemma NextAverage(cfg: Config, history: map<string, seq<nat>>, averages: map<string, real>, entryPoint: string,
                    observed: nat)
    requires AveragesOf(cfg, history, averages)
    ensures Average(cfg, None, GetOr(history, entryPoint, []) + [observed]) ==
            Some(if entryPoint in averages
                 then averages[entryPoint] + Times(Alpha(cfg), Clip(cfg, observed) as real - averages[entryPoint])
                 else Clip(cfg, observed) as real)
  {
    assert Lookup(averages, entryPoint) == Average(cfg, None, GetOr(history, entryPoint, []));
    AverageSnoc(cfg, GetOr(history, entryPoint, []), observed);
    hide Average, Times, Alpha, Clip;
  }

  lemma AveragesUpdate(cfg: Config, history: map<string, seq<nat>>, averages: map<string, real>, entryPoint: string,
                       samples: seq<nat>, average: real)
    requires AveragesOf(cfg, history, averages) && Average(cfg, None, samples) == Some(average)
    ensures AveragesOf(cfg, history[entryPoint := samples], averages[entryPoint := average])
  {
    hide Average;
    var history', averages' := history[entryPoint := samples], averages[entryPoint := average];
    forall e ensures Lookup(averages', e) == Average(cfg, None, GetOr(history', e, [])) {
      assert Lookup(averages, e) == Average(cfg, None, GetOr(history, e, []));
    }
  }

  lemma BlendBetween(a: real, c: real, s: real, lo: real, hi: real)
    requires 0.0 <= a <= 1.0 && lo <= c <= hi && lo <= s <= hi
    ensures lo <= c + Times(a, s - c) <= hi
  {
    hide Times;
    if s >= c {
      TimesFraction(a, s - c);
    } else {
      TimesFraction(a, c - s);
      TimesMinus(a, s, c);
      TimesMinus(a, c, s);
    }
  }

  lemma RoundBetween(v: real, lo: nat, hi: nat)
    requires lo as real <= v <= hi as real
    ensures lo <= Round(v) <= hi
  {
    var f := (v + 0.5).Floor;
    assert f as real <= v + 0.5 < f as real + 1.0;
  }

  /** The stored average never leaves the range of the clipped samples. */
  lemma {:induction false} AverageBetween(cfg: Config, samples: seq<nat>, lo: nat, hi: nat)
    requires samples != []
    requires forall i :: 0 <= i < |samples| ==> lo <= Clip(cfg, samples[i]) <= hi
    ensures Average(cfg, None, samples).Some?
    ensures lo as real <= Average(cfg, None, samples).value <= hi as real
    ensures lo <= Round(Average(cfg, None, samples).value) <= hi
  {
    var n := |samples| - 1;
    hide Times, Round;
    var front := Average(cfg, None, samples[..n]);
    if n > 0 {
      AverageBetween(cfg, samples[..n], lo, hi);
      BlendBetween(Alpha(cfg), front.value, Clip(cfg, samples[n]) as real, lo as real, hi as real);
    }
    RoundBetween(Average(cfg, None, samples).value, lo, hi);
  }

  /** In particular the overhead put on plans respects the configured maximum. */
  lemma AverageRespectsMaximum(cfg: Config, samples: seq<nat>)
    requires cfg.maxOverhead > 0
    ensures match Average(cfg, None, samples)
      case None => samples == []
      case Some(v) => Round(v) <= cfg.maxOverhead
  {
    if samples != [] {
      AverageBetween(cfg, samples, 0, cfg.maxOverhead);
    }
  }

  // ----- convergence under a constant sample

  function Power(x: real, n: nat): real {
    if n == 0 then 1.0 else Times(x, Power(x, n - 1))
  }

  function Constant(sample: nat, n: nat): (s: seq<nat>)
    ensures |s| == n
  {
    seq(n, i => sample)
  }

  /** Each further sample shrinks the error by exactly `1 - alpha`. */
  lemma {:induction false} ErrorShrinks(cfg: Config, start: real, sample: nat, n: nat)
    ensures Average(cfg, Some(start), Constant(sample, n)) ==
            Some(Clip(cfg, sample) as real + Times(Power(1.0 - Alpha(cfg), n), start - Clip(cfg, sample) as real))
  {
    hide Times, Alpha;
    var c, d := Clip(cfg, sample) as real, start - Clip(cfg, sample) as real;
    if n == 0 {
      TimesConstants(d);
    } else {
      assert Constant(sample, n)[..n - 1] == Constant(sample, n - 1);
      ErrorShrinks(cfg, start, sample, n - 1);
      BlendError(Alpha(cfg), c, Power(1.0 - Alpha(cfg), n - 1), d);
    }
  }

  lemma BlendError(a: real, c: real, p: real, d: real)
    ensures var v := c + Times(p, d); v + Times(a, c - v) == c + Times(Times(1.0 - a, p), d)
  {
    hide Times;
    var e := Times(p, d);
    assert c - (c + e) == 0.0 - e;
    TimesMinus(a, 0.0, e);
    TimesConstants(a);
    TimesMinus(e, 1.0, a);
    TimesConstants(e);
    TimesAssociates(1.0 - a, p, d);
  }

  lemma {:induction false} PowerBound(a: real, n: nat)
    requires 0.0 <= a <= 1.0
    ensures 0.0 <= Power(1.0 - a, n)
    ensures Times(Power(1.0 - a, n), 1.0 + Times(n as real, a)) <= 1.0
  {
    hide Times;
    TimesConstants(a);
    if n == 0 {
      TimesConstants(1.0);
    } else {
      PowerBound(a, n - 1);
      var p, m := Power(1.0 - a, n - 1), (n - 1) as real;
      TimesSign(1.0 - a, p);
      OneFactor(a, m);
      assert n as real == m + 1.0;
      TimesMonotone(p, Times(1.0 - a, 1.0 + Times(m + 1.0, a)), 1.0 + Times(m, a));
      TimesAssociates(1.0 - a, p, 1.0 + Times(m + 1.0, a));
    }
  }

  lemma OneFactor(a: real, m: real)
    requires a >= 0.0 && m >= 0.0
    ensures Times(1.0 - a, 1.0 + Times(m + 1.0, a)) <= 1.0 + Times(m, a)
  {
    hide Times;
    var t := Times(m, a);
    TimesMinus(a, m, -1.0);
    assert m - -1.0 == m + 1.0;
    TimesMinus(a, 0.0, 1.0);
    TimesConstants(a);
    assert 0.0 - 1.0 == -1.0;
    assert Times(m + 1.0, a) == t + a;
    TimesMinus(1.0 + t + a, 1.0, a);
    TimesConstants(1.0 + t + a);
    TimesSign(m, a);
    TimesMonotone(a, 1.0, 1.0 + t + a);
  }

  function Abs(x: real): real {
    if x < 0.0 then -x else x
  }

  /** After finitely many equal samples the reported overhead is that sample, and stays it. */
  lemma ReportedOverheadSettles(cfg: Config, start: real, sample: nat) returns (bound: nat)
    requires Alpha(cfg) > 0.0
    ensures forall n: nat :: n >= bound ==>
              Average(cfg, Some(start), Constant(sample, n)).Some? &&
              Round(Average(cfg, Some(start), Constant(sample, n)).value) == Clip(cfg, sample)
  {
    hide Times, Round, Abs, Alpha;
    var a, c := Alpha(cfg), Clip(cfg, sample) as real;
    AbsNonNegative(start - c);
    var d := Abs(start - c);
    bound := EnoughSamples(a, d);
    forall n: nat | n >= bound
      ensures Average(cfg, Some(start), Constant(sample, n)).Some? &&
              Round(Average(cfg, Some(start), Constant(sample, n)).value) == Clip(cfg, sample)
    {
      ErrorShrinks(cfg, start, sample, n);
      SmallError(a, n, bound, start - c, d);
      RoundNear(c + Times(Power(1.0 - a, n), start - c), Clip(cfg, sample));
    }
  }

  lemma AbsNonNegative(x: real)
    ensures Abs(x) >= 0.0
  {
  }

  lemma EnoughSamples(a: real, d: real) returns (bound: nat)
    requires a > 0.0 && d >= 0.0
    ensures Times(bound as real, a) > 2.0 * d
  {
    var ratio := 2.0 * d / a;
    TimesQuotient(2.0 * d, a);
    assert ratio >= 0.0 by {
      if ratio < 0.0 {
        TimesSign(0.0 - ratio, a);
      }
    }
    bound := ratio.Floor + 1;
    hide Times;
    TimesMonotone(a, ratio, bound as real);
  }

  lemma SmallError(a: real, n: nat, bound: nat, e: real, d: real)
    requires 0.0 < a <= 1.0 && n >= bound && Times(bound as real, a) > 2.0 * d && d == Abs(e)
    ensures -0.5 < Times(Power(1.0 - a, n), e) < 0.5
  {
    hide Times;
    PowerBound(a, n);
    TimesMonotone(a, bound as real, n as real);
    var p, q := Power(1.0 - a, n), 1.0 + Times(n as real, a);
    TimesMonotone(p, 2.0 * d, q);
    TimesTwice(p, d);
    TimesSign(p, d);
    TimesConstants(d);
    TimesMinus(p, 0.0, e);
    TimesConstants(p);
    assert d == e || d == 0.0 - e;
  }

  lemma RoundNear(v: real, c: nat)
    requires -0.5 < v - c as real < 0.5
    ensures Round(v) == c
  {
    assert c as real < v + 0.5 < c as real + 1.0;
    if v < 0.0 {
      assert c as real < 0.5;
    } else {
      assert (v + 0.5).Floor as real <= v + 0.5 < (v + 0.5).Floor as real + 1.0;
    }
  }

  // ----- the calibrator

  /** The overheads of the plan and, in preorder, of its calls, once `k` has been placed on the calls. */
  function Placed(placement: Placement, overheads: seq<nat>, k: nat): seq<nat>
    requires |overheads| > 0
  {
    var calls := |overheads| - 1;
    if calls == 0 then overheads
    else match placement
      case LastCall => AddLast(overheads, k)
      case UniformCalls => [overheads[0]] + Bump(overheads[1..], k / calls, k % calls)
  }

  /** `q` differs from `p` in its hints and in overheads that were raised by placing `k`. */
  ghost predicate Spread(p: Plan, q: Plan, placement: Placement, k: nat) {
    exists placed: Plan ::
      Bare(placed) == Bare(q) && Zeroed(placed) == Zeroed(p) && Flat(placed) == Placed(placement, Flat(p), k)
  }

  class OnlineOverheadCalibrator {
    const config: Config
    var overheads: map<string, real>
    /** The samples that were taken into account so far. */
    ghost var history: map<string, seq<nat>>

    ghost predicate Valid()
      reads this
    {
      AveragesOf(config, history, overheads)
    }

    constructor (config: Config)
      ensures Valid() && this.config == config && history == map[] && overheads == map[]
    {
      this.config := config;
      overheads, history := map[], map[];
    }

    /** Takes one observation into account, unless calibration is off or the smoothing factor is zero. */
    method Record(entryPoint: string, observed: nat)
      requires Valid()
      modifies this
      ensures Valid()
      ensures history == if !config.enabled || Alpha(config) == 0.0 then old(history)
                         else old(history)[entryPoint := GetOr(old(history), entryPoint, []) + [observed]]
    {
      if !config.enabled {
        return;
      }
      var sample := if config.maxOverhead > 0 && observed > config.maxOverhead then config.maxOverhead else observed;
      var alpha := Alpha(config);
      if alpha == 0.0 {
        return;
      }
      ghost var samples := GetOr(history, entryPoint, []) + [observed];
      NextAverage(config, history, overheads, entryPoint, observed);
      hide Average, Times, AveragesOf;
      var next :=
        if entryPoint in overheads then overheads[entryPoint] + Times(alpha, sample as real - overheads[entryPoint])
        else sample as real;
      AveragesUpdate(config, history, overheads, entryPoint, samples, next);
      overheads := overheads[entryPoint := next];
      history := history[entryPoint := samples];
    }

    /** The overhead that new plans of an entry point get. */
    function CurrentOverhead(entryPoint: string): nat
      reads this
    {
      Round(GetOr(overheads, entryPoint, 0.0))
    }

    /** What is reported lies between the least and the greatest clipped sample. */
    lemma ReportedBetween(entryPoint: string, lo: nat, hi: nat)
      requires Valid() && GetOr(history, entryPoint, []) != []
      requires forall i :: 0 <= i < |GetOr(history, entryPoint, [])| ==>
                 lo <= Clip(config, GetOr(history, entryPoint, [])[i]) <= hi
      ensures lo <= CurrentOverhead(entryPoint) <= hi
    {
      AverageBetween(config, GetOr(history, entryPoint, []), lo, hi);
      assert Lookup(overheads, entryPoint) == Average(config, None, GetOr(history, entryPoint, []));
    }

    /**
     Adds the current overhead to a plan and recomputes its hints. The actual
     work never changes, so observations are not fed back; on a linear plan with
     calls the estimate rises by exactly the overhead.
     */
    method Apply(entryPoint: string, p: Plan) returns (q: Plan)
      ensures Actual(q) == Actual(p)
      ensures HintsOk(p) ==> HintsOk(q)
      ensures Linear(p) ==>
                Est(q) == Est(p) + if config.enabled && CountCalls(p) > 0 then CurrentOverhead(entryPoint) else 0
      ensures HintsOk(p) && (!config.enabled || CurrentOverhead(entryPoint) == 0 || CountCalls(p) == 0) ==> q == p
      ensures config.enabled && CurrentOverhead(entryPoint) > 0 ==>
                HintsOk(q) && Spread(p, q, config.placement, CurrentOverhead(entryPoint))
    {
      if !config.enabled {
        return p;
      }
      var overhead := CurrentOverhead(entryPoint);
      if overhead == 0 {
        return p;
      }
      var placed: Plan;
      CountIsFlatLength(p);
      match config.placement {
        case LastCall =>
          var done;
          placed, done := AddOverheadToLastCall(p, overhead);
          if done {
            SumAddLast(Flat(p), overhead);
          }
        case UniformCalls =>
          placed := AddOverheadUniformly(p, overhead);
      }
      OverheadShift(p, placed);
      q := RefreshHints(placed);
      TotalsIgnoreHints(placed);
      TotalsIgnoreHints(q);
      assert Zeroed(placed) == Zeroed(p) && Flat(placed) == Placed(config.placement, Flat(p), overhead);
      if HintsOk(p) && CountCalls(p) == 0 {
        HintsUnique(p, q);
      }
    }

    /** Records what a finished request took beyond the actual work of its plan. */
    method RecordLatency(entryPoint: string, latency: nat, p: Plan)
      requires Valid()
      modifies this
      ensures Valid()
      ensures history == if !config.enabled || Alpha(config) == 0.0 then old(history)
                         else old(history)[entryPoint := GetOr(old(history), entryPoint, []) + [Excess(latency, p)]]
    {
      Record(entryPoint, Excess(latency, p));
    }
  }

  /** The observed overhead, never negative. */
  function Excess(latency: nat, p: Plan): nat {
    if latency >= Actual(p) then latency - Actual(p) else 0
  }

  /** What exceeds the actual work of a plan; together they make up the latency unless it was shorter. */
  lemma ExcessLaws(latency: nat, p: Plan)
    ensures Excess(latency, p) + Actual(p) == Max(latency, Actual(p))
  {
  }

  lemma {:induction false} SumAddLast(s: seq<nat>, k: nat)
    requires |s| > 0
    ensures Sum(AddLast(s, k)) == Sum(s) + k
  {
    var n := |s| - 1;
    assert s == s[..n] + [s[n]] && AddLast(s, k) == s[..n] + [s[n] + k];
    SumAppend(s[..n], [s[n]]);
    SumAppend(s[..n], [s[n] + k]);
  }
}
