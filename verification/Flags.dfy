/**
 The policy matrix check (`validate_policy_matrix.py`): flags imply other flags,
 and combinations of flags are checked against the matrix.
 */
module Flags {
  import opened Collections

  type Flag = string
  type Implications = map<Flag, seq<Flag>>

  /** Whatever a flag of the set implies is in the set. */
  ghost predicate Closed(flags: set<Flag>, implies: Implications) {
    forall f, g :: f in flags && f in implies && g in implies[f] ==> g in flags
  }

  /** The least closed set that contains the given flags. */
  ghost predicate IsClosure(flags: set<Flag>, implies: Implications, closure: set<Flag>) {
    && flags <= closure
    && Closed(closure, implies)
    && forall other: set<Flag> {:trigger Closed(other, implies)} ::
      flags <= other && Closed(other, implies) ==> closure <= other
  }

  function Implied(implies: Implications, f: Flag): seq<Flag> {
    GetOr(implies, f, [])
  }

  ghost function Universe(flags: set<Flag>, implies: Implications): set<Flag> {
    flags + set f, g | f in implies && g in implies[f] :: g
  }

  lemma UniverseClosed(flags: set<Flag>, implies: Implications)
    ensures flags <= Universe(flags, implies) && Closed(Universe(flags, implies), implies)
  {
  }

  /** Between the given flags and every closed set around them. */
  ghost predicate Growing(flags: set<Flag>, implies: Implications, expanded: set<Flag>) {
    && flags <= expanded
    && forall other: set<Flag> {:trigger Closed(other, implies)} ::
      flags <= other && Closed(other, implies) ==> expanded <= other
  }

  /** Adds implied flags in rounds until a round adds none. */
  method ExpandImpliedFlags(flags: set<Flag>, implies: Implications) returns (expanded: set<Flag>)
    ensures IsClosure(flags, implies, expanded)
  {
    expanded := flags;
    var changed := true;
    ghost var universe := Universe(flags, implies);
    UniverseClosed(flags, implies);
    while changed
      invariant Growing(flags, implies, expanded)
      invariant !changed ==> Closed(expanded, implies)
      decreases universe - expanded, changed
    {
      assert expanded <= universe;
      ghost var before := expanded;
      expanded, changed := ExpandRound(flags, implies, expanded);
      assert expanded <= universe;
      if changed {
        assert universe - expanded < universe - before;
      }
    }
  }

  /** One round over a snapshot of the set. */
  method ExpandRound(ghost flags: set<Flag>, implies: Implications, expanded0: set<Flag>)
    returns (expanded: set<Flag>, changed: bool)
    requires Growing(flags, implies, expanded0)
    ensures Growing(flags, implies, expanded) && expanded0 <= expanded
    ensures if changed then expanded0 < expanded else expanded == expanded0 && Closed(expanded, implies)
  {
    expanded, changed := expanded0, false;
    var snapshot := expanded0;
    while snapshot != {}
      invariant snapshot <= expanded0 <= expanded && Growing(flags, implies, expanded)
      invariant changed <==> expanded0 != expanded
      invariant forall f, g :: f in expanded0 && f !in snapshot && f in implies && g in implies[f] ==> g in expanded
      decreases snapshot
    {
      var flag :| flag in snapshot;
      snapshot := snapshot - {flag};
      var deps := Implied(implies, flag);
      for i := 0 to |deps|
        invariant expanded0 <= expanded && Growing(flags, implies, expanded)
        invariant changed <==> expanded0 != expanded
        invariant forall f, g ::
                    f in expanded0 && f !in snapshot && f != flag && f in implies && g in implies[f] ==> g in expanded
        invariant forall j :: 0 <= j < i ==> deps[j] in expanded
      {
        if deps[i] !in expanded {
          expanded, changed := expanded + {deps[i]}, true;
        }
      }
    }
  }

  /** The closure is unique, grows with the flags, and expanding it again changes nothing. */
  lemma ClosureLaws(flags: set<Flag>, more: set<Flag>, implies: Implications, a: set<Flag>, b: set<Flag>)
    requires flags <= more && IsClosure(flags, implies, a) && IsClosure(more, implies, b)
    ensures a <= b && IsClosure(a, implies, a)
    ensures flags == more ==> a == b
  {
  }

  // ----- combinations

  datatype Error =
    | UnknownFlags(combo: nat, unknown: set<Flag>)
    | UnsatisfiedImplication(combo: nat, flag: Flag)
    | ExclusiveFlags(combo: nat, group: string, selected: set<Flag>)

  function AsSet(flags: seq<Flag>): set<Flag> {
    set f | f in flags
  }

  /** What is reported about combination number `c`. */
  ghost predicate ComboReported(c: nat, flags: set<Flag>, known: set<Flag>, exclusive: map<string, seq<Flag>>,
                                e: Error)
  {
    e.combo == c && match e
      case UnknownFlags(_, unknown) => unknown == flags - known && unknown != {}
      case ExclusiveFlags(_, group, selected) =>
        group in exclusive && selected == flags * AsSet(exclusive[group]) && |selected| > 1
      case UnsatisfiedImplication(_, _) => false
  }

  ghost predicate Reported(combos: seq<set<Flag>>, n: nat, known: set<Flag>, exclusive: map<string, seq<Flag>>,
                           e: Error)
    requires n <= |combos|
  {
    e.combo < n && ComboReported(e.combo, combos[e.combo], known, exclusive, e)
  }

  /**
   The errors are one per combination with unknown flags and one per exclusive group of
   which it has several; never an unsatisfied implication.
   */
  method ValidateComboList(combos: seq<set<Flag>>, known: set<Flag>, implies: Implications,
                           exclusive: map<string, seq<Flag>>)
    returns (errors: seq<Error>)
    ensures forall e :: e in errors <==> Reported(combos, |combos|, known, exclusive, e)
  {
    errors := [];
    for c := 0 to |combos|
      invariant forall e :: e in errors <==> Reported(combos, c, known, exclusive, e)
    {
      var found := ValidateCombo(c, combos[c], known, implies, exclusive);
      ghost var before := errors;
      errors := errors + found;
      forall e ensures e in errors <==> Reported(combos, c + 1, known, exclusive, e) {
        assert e in errors <==> e in before || e in found;
      }
    }
  }

  method ValidateCombo(c: nat, flags: set<Flag>, known: set<Flag>, implies: Implications,
                       exclusive: map<string, seq<Flag>>)
    returns (errors: seq<Error>)
    ensures forall e :: e in errors <==> ComboReported(c, flags, known, exclusive, e)
  {
    errors := [];
    var unknown := flags - known;
    if unknown != {} {
      errors := errors + [UnknownFlags(c, unknown)];
    }
    var expanded := ExpandImpliedFlags(flags, implies);
    var unsatisfied := CheckImplications(c, flags, implies, expanded);
    errors := errors + unsatisfied;
    var groups := exclusive.Keys;
    while groups != {}
      invariant groups <= exclusive.Keys
      invariant forall e ::
                  e in errors <==>
                    ComboReported(c, flags, known, exclusive, e) && !(e.ExclusiveFlags? && e.group in groups)
      decreases groups
    {
      var group :| group in groups;
      groups := groups - {group};
      var selected := flags * AsSet(exclusive[group]);
      if |selected| > 1 {
        errors := errors + [ExclusiveFlags(c, group, selected)];
      }
    }
  }

  /** The check of the implications, on any expansion. */
  method CheckImplications(c: nat, flags: set<Flag>, implies: Implications, expanded: set<Flag>)
    returns (errors: seq<Error>)
    ensures forall e :: e in errors <==>
              e.UnsatisfiedImplication? && e.combo == c && e.flag in implies && e.flag in flags &&
                !(AsSet(implies[e.flag]) <= expanded)
  {
    errors := [];
    var rest := implies.Keys;
    while rest != {}
      invariant rest <= implies.Keys
      invariant forall e :: e in errors <==>
                  e.UnsatisfiedImplication? && e.combo == c && e.flag in implies && e.flag !in rest && e.flag in flags
                  && !(AsSet(implies[e.flag]) <= expanded)
      decreases rest
    {
      var flag :| flag in rest;
      rest := rest - {flag};
      if flag in flags && !(AsSet(implies[flag]) <= expanded) {
        errors := errors + [UnsatisfiedImplication(c, flag)];
      }
    }
  }

  // ----- exclusive flags that clash by implication

  /** Everything the flags imply, in any number of steps. */
  ghost function Closure(flags: set<Flag>, implies: Implications): (r: set<Flag>)
    ensures IsClosure(flags, implies, r)
  {
    UniverseClosed(flags, implies);
    set g | g in Universe(flags, implies) &&
            forall other: set<Flag> {:trigger Closed(other, implies)} ::
              flags <= other && Closed(other, implies) ==> g in other
  }

  /** The flags that some single flag implies. */
  ghost predicate BySingle(flags: set<Flag>, implies: Implications, g: Flag) {
    exists f :: f in flags && g in Closure({f}, implies)
  }

  /** Whatever is implied is implied by a single flag. */
  lemma ClosureOfSingles(flags: set<Flag>, implies: Implications, g: Flag)
    ensures g in Closure(flags, implies) <==> exists f :: f in flags && g in Closure({f}, implies)
  {
    var closure := Closure(flags, implies);
    var reached := set x | x in closure && BySingle(flags, implies, x);
    SinglesClosed(flags, implies, closure, reached);
    assert closure <= reached;
    forall f | f in flags ensures Closure({f}, implies) <= closure {
      ClosureLaws({f}, flags, implies, Closure({f}, implies), closure);
    }
    hide Closure, Closed, Universe;
    assert g in closure ==> BySingle(flags, implies, g);
  }

  lemma SingleGoesOn(flags: set<Flag>, implies: Implications, x: Flag, y: Flag)
    requires BySingle(flags, implies, x) && x in implies && y in implies[x]
    ensures BySingle(flags, implies, y)
  {
    var f :| f in flags && x in Closure({f}, implies);
    assert Closed(Closure({f}, implies), implies);
  }

  lemma SingleBegins(flags: set<Flag>, implies: Implications, f: Flag)
    requires f in flags
    ensures BySingle(flags, implies, f)
  {
    assert {f} <= Closure({f}, implies);
  }

  /** What single flags imply is closed, being a union of closed sets, and contains the flags. */
  lemma SinglesClosed(flags: set<Flag>, implies: Implications, closure: set<Flag>, reached: set<Flag>)
    requires flags <= closure && Closed(closure, implies)
    requires forall x :: x in reached <==> x in closure && BySingle(flags, implies, x)
    ensures Closed(reached, implies) && flags <= reached
  {
    hide BySingle;
    forall x, y | x in reached && x in implies && y in implies[x] ensures y in reached {
      SingleGoesOn(flags, implies, x, y);
    }
    forall f | f in flags ensures f in reached {
      SingleBegins(flags, implies, f);
    }
  }

  /** The check finds nothing to report about the combination. */
  ghost predicate Accepted(flags: set<Flag>, known: set<Flag>, exclusive: map<string, seq<Flag>>) {
    forall e :: !ComboReported(0, flags, known, exclusive, e)
  }

  /** Two flags of the group are in the set. */
  ghost predicate Clash(flags: set<Flag>, group: seq<Flag>) {
    exists f, g :: f in group && g in group && f != g && f in flags && g in flags
  }

  /** No exclusive group is chosen twice, counting what the flags imply. */
  ghost predicate ClashFree(flags: set<Flag>, implies: Implications, exclusive: map<string, seq<Flag>>) {
    forall group :: group in exclusive ==> !Clash(Closure(flags, implies), exclusive[group])
  }

  lemma ClashMeansTwo(flags: set<Flag>, group: seq<Flag>)
    ensures Clash(flags, group) <==> |flags * AsSet(group)| > 1
  {
    var chosen := flags * AsSet(group);
    assert forall f :: f in group && f in flags ==> f in chosen;
    if f, g :| f in chosen && g in chosen && f != g {
      assert |chosen| == |chosen - {f}| + 1 && g in chosen - {f};
    } else if f :| f in chosen {
      assert chosen == {f};
    }
  }

  /** A clash is reported for a group exactly when the flags as given already clash in it, whatever they imply. */
  lemma ClashReportedExactly(c: nat, flags: set<Flag>, known: set<Flag>, exclusive: map<string, seq<Flag>>,
                             group: string)
    ensures (exists e :: ComboReported(c, flags, known, exclusive, e) && e.ExclusiveFlags? && e.group == group) <==>
            group in exclusive && Clash(flags, exclusive[group])
  {
    if group in exclusive {
      ClashMeansTwo(flags, exclusive[group]);
      var e := ExclusiveFlags(c, group, flags * AsSet(exclusive[group]));
      assert |e.selected| > 1 ==> ComboReported(c, flags, known, exclusive, e);
    }
  }

  lemma AcceptedExactly(flags: set<Flag>, known: set<Flag>, exclusive: map<string, seq<Flag>>)
    ensures Accepted(flags, known, exclusive) <==>
            flags <= known && forall group :: group in exclusive ==> !Clash(flags, exclusive[group])
  {
    if Accepted(flags, known, exclusive) {
      assert !ComboReported(0, flags, known, exclusive, UnknownFlags(0, flags - known));
      assert forall f :: f in flags ==> f in known || f in flags - known;
      forall group | group in exclusive ensures !Clash(flags, exclusive[group]) {
        ClashReportedExactly(0, flags, known, exclusive, group);
      }
    } else {
      var e :| ComboReported(0, flags, known, exclusive, e);
      if e.ExclusiveFlags? {
        ClashReportedExactly(0, flags, known, exclusive, e.group);
      }
    }
  }

  /** Which accepted combinations clash by implication is decided by their pairs of flags. */
  lemma PairsDecideClash(flags: set<Flag>, implies: Implications, exclusive: map<string, seq<Flag>>)
    ensures ClashFree(flags, implies, exclusive) <==>
            forall f, g :: f in flags && g in flags ==> ClashFree({f, g}, implies, exclusive)
  {
    forall f, g | f in flags && g in flags ensures Closure({f, g}, implies) <= Closure(flags, implies) {
      ClosureLaws({f, g}, flags, implies, Closure({f, g}, implies), Closure(flags, implies));
    }
    if !ClashFree(flags, implies, exclusive) {
      var group :| group in exclusive && Clash(Closure(flags, implies), exclusive[group]);
      var x, y :| x in exclusive[group] && y in exclusive[group] && x != y
                  && x in Closure(flags, implies) && y in Closure(flags, implies);
      ClosureOfSingles(flags, implies, x);
      ClosureOfSingles(flags, implies, y);
      var f, g :| f in flags && g in flags && x in Closure({f}, implies) && y in Closure({g}, implies);
      ClosureOfSingles({f, g}, implies, x);
      ClosureOfSingles({f, g}, implies, y);
      assert Clash(Closure({f, g}, implies), exclusive[group]);
    }
  }

  /** The check misses no clash of any combination exactly when it misses none of any pair of flags. */
  lemma CheckIsCompleteExactly(known: set<Flag>, implies: Implications, exclusive: map<string, seq<Flag>>)
    ensures (forall flags :: Accepted(flags, known, exclusive) ==> ClashFree(flags, implies, exclusive)) <==>
            (forall f, g :: Accepted({f, g}, known, exclusive) ==> ClashFree({f, g}, implies, exclusive))
  {
    if forall f, g :: Accepted({f, g}, known, exclusive) ==> ClashFree({f, g}, implies, exclusive) {
      forall flags | Accepted(flags, known, exclusive) ensures ClashFree(flags, implies, exclusive) {
        AcceptedExactly(flags, known, exclusive);
        forall f, g | f in flags && g in flags ensures ClashFree({f, g}, implies, exclusive) {
          AcceptedExactly({f, g}, known, exclusive);
        }
        PairsDecideClash(flags, implies, exclusive);
      }
    }
  }

  // ----- the matrix of the repository

  const MatrixKnown: set<Flag> := {
    "sched_fifo", "sched_slo", "sched_tailclipper", "sched_oracle", "sched_pred", "sched_mt", "sched_mt_multiqueue",
    "abort_slo", "abort_slack", "signal_slack", "estimator", "est_mean_var", "est_hist", "est_rms", "ac_pred",
    "ac_rajomon", "trace_queue_latency", "deadline_equals_slack", "stack_custom", "sched_custom"
  }

  const MatrixImplies: Implications := map[
    "sched_pred" := ["estimator", "sched_slo"],
    "sched_mt" := ["sched_slo"],
    "sched_mt_multiqueue" := ["sched_mt"],
    "abort_slack" := ["estimator"],
    "signal_slack" := ["estimator", "ac_pred"],
    "ac_pred" := ["estimator"],
    "deadline_equals_slack" := ["sched_pred"]
  ]

  const MatrixExclusive: map<string, seq<Flag>> := map[
    "scheduling" := ["sched_fifo", "sched_slo", "sched_tailclipper", "sched_oracle"],
    "admission_control" := ["ac_pred", "ac_rajomon"],
    "abort" := ["abort_slo", "abort_slack"],
    "slack_action" := ["abort_slack", "signal_slack"],
    "estimator_kind" := ["est_mean_var", "est_hist", "est_rms"]
  ]

  lemma MultithreadedInNoGroup()
    ensures forall name :: name in MatrixExclusive ==> "sched_mt" !in MatrixExclusive[name]
  {
    forall name, i | name in MatrixExclusive && 0 <= i < |MatrixExclusive[name]|
      ensures MatrixExclusive[name][i] != "sched_mt"
    {
      var f := MatrixExclusive[name][i];
      assert |f| != |"sched_mt"| || f[0] == 'e';
    }
  }

  lemma MultithreadedImpliesDeadlines()
    ensures "sched_mt" in MatrixImplies && "sched_slo" in MatrixImplies["sched_mt"]
    ensures "scheduling" in MatrixExclusive && Clash({"sched_fifo", "sched_slo"}, MatrixExclusive["scheduling"])
  {
    assert MatrixImplies["sched_mt"][0] == "sched_slo";
    var group := MatrixExclusive["scheduling"];
    assert group[0] == "sched_fifo" && group[1] == "sched_slo" && |group[0]| != |group[1]|;
    assert "sched_fifo" in group && "sched_slo" in group;
  }

  /** The check accepts `sched_fifo,sched_mt`, though `sched_mt` implies `sched_slo`, which excludes `sched_fifo`. */
  lemma ImpliedClashUnreported()
    ensures var flags := {"sched_fifo", "sched_mt"};
            Accepted(flags, MatrixKnown, MatrixExclusive) && !ClashFree(flags, MatrixImplies, MatrixExclusive)
  {
    var flags := {"sched_fifo", "sched_mt"};
    assert flags <= MatrixKnown;
    MultithreadedInNoGroup();
    MultithreadedImpliesDeadlines();
    hide MatrixKnown, MatrixImplies, MatrixExclusive;
    var closure := Closure(flags, MatrixImplies);
    assert {"sched_fifo", "sched_slo"} <= closure;
    assert Clash(closure, MatrixExclusive["scheduling"]);
    AcceptedExactly(flags, MatrixKnown, MatrixExclusive);
  }
}
