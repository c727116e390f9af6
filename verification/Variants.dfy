/**
 Counting conditional call variants (`conditional_variants.py`): how often each
 method shows each fan-out signature, and which signature its callees show in
 each slot of it.
 */
module Variants {
  import opened Collections
  import opened Names
  import opened Fanout
  import opened VariantSpec

  // ----- how often a signature flows into a method

  ghost function Entry(tc: Transitions, key: Slot, m: Name, s: Signature): nat {
    if key.target == m then Counter(tc, key)[s] else 0
  }

  ghost function SumEntries(keys: set<Slot>, tc: Transitions, m: Name, s: Signature): nat {
    if keys == {} then 0 else
      var k :| k in keys;
      SumEntries(keys - {k}, tc, m, s) + Entry(tc, k, m, s)
  }

  /** All counts of callee signature `s` over all slots whose target is `m`. */
  ghost function Inflow(tc: Transitions, m: Name, s: Signature): nat {
    SumEntries(tc.Keys, tc, m, s)
  }

  lemma {:induction false} SumPick(keys: set<Slot>, tc: Transitions, m: Name, s: Signature, k: Slot)
    requires k in keys
    ensures SumEntries(keys, tc, m, s) == SumEntries(keys - {k}, tc, m, s) + Entry(tc, k, m, s)
  {
    var j :| j in keys && SumEntries(keys, tc, m, s) == SumEntries(keys - {j}, tc, m, s) + Entry(tc, j, m, s);
    if j != k {
      SumPick(keys - {j}, tc, m, s, k);
      SumPick(keys - {k}, tc, m, s, j);
      assert keys - {j} - {k} == keys - {k} - {j};
    }
  }

  lemma {:induction false} SumSame(keys: set<Slot>, tc: Transitions, tc': Transitions, m: Name, s: Signature)
    requires forall k :: k in keys ==> Entry(tc, k, m, s) == Entry(tc', k, m, s)
    ensures SumEntries(keys, tc, m, s) == SumEntries(keys, tc', m, s)
  {
    if keys != {} {
      var k :| k in keys;
      SumPick(keys, tc, m, s, k);
      SumPick(keys, tc', m, s, k);
      SumSame(keys - {k}, tc, tc', m, s);
    }
  }

  lemma InflowIncrement(tc: Transitions, key: Slot, t: Signature, m: Name, s: Signature)
    ensures Inflow(Increment(tc, key, t), m, s) == Inflow(tc, m, s) + if key.target == m && t == s then 1 else 0
  {
    var tc' := Increment(tc, key, t);
    var rest := tc.Keys - {key};
    assert tc'.Keys - {key} == rest;
    SumPick(tc'.Keys, tc', m, s, key);
    SumSame(rest, tc, tc', m, s);
    if key in tc {
      SumPick(tc.Keys, tc, m, s, key);
    } else {
      assert rest == tc.Keys;
    }
  }

  // ----- spans that show a signature

  lemma MatchAdd(spans: set<Span>, c: Span, sigs: map<Name, Signature>, m: Name, s: Signature)
    requires c !in spans
    ensures MatchCount(spans + {c}, sigs, m, s) ==
            MatchCount(spans, sigs, m, s) + if c.methodName == m && Lookup(sigs, c.rpcId) == Some(s) then 1 else 0
  {
    assert Matching(spans + {c}, sigs, m, s) ==
           Matching(spans, sigs, m, s) +
           if c.methodName == m && Lookup(sigs, c.rpcId) == Some(s) then {c} else {};
  }

  lemma MatchMinus(spans: set<Span>, gone: set<Span>, sigs: map<Name, Signature>, m: Name, s: Signature)
    requires gone <= spans
    ensures MatchCount(spans - gone, sigs, m, s) + MatchCount(gone, sigs, m, s) == MatchCount(spans, sigs, m, s)
  {
    assert Matching(spans, sigs, m, s) == Matching(spans - gone, sigs, m, s) + Matching(gone, sigs, m, s);
  }

  // ----- one parent's transitions

  /** The slots of this parent variant that were counted once groups before `g` and `i` calls of group `g` are done. */
  ghost predicate Passed(key: Slot, m: Name, sig: Signature, g: nat, i: nat) {
    && key.method' == m && key.signature == sig && key.group < |sig|
    && (if key.group < g then key.occurrence < multiset(sig[key.group])[key.target]
        else key.group == g && i <= |sig[g]| && key.occurrence < multiset(sig[g][..i])[key.target])
  }

  ghost predicate OutStep(tc0: Transitions, tc: Transitions, key: Slot, m: Name, sig: Signature, g: nat, i: nat) {
    |Counter(tc, key)| == |Counter(tc0, key)| + if Passed(key, m, sig, g, i) then 1 else 0
  }

  ghost predicate InStep(tc0: Transitions, tc: Transitions, done: set<Span>, sigs: map<Name, Signature>,
                         m: Name, s: Signature)
  {
    Inflow(tc, m, s) == Inflow(tc0, m, s) + MatchCount(done, sigs, m, s)
  }

  lemma MembersFirst(groups: seq<seq<Span>>)
    ensures groups == [] ==> Members(groups) == multiset{}
    ensures groups != [] ==> Members(groups) == multiset(groups[0]) + Members(groups[1..])
  {
  }

  lemma {:induction false} MembersAppend(a: seq<seq<Span>>, b: seq<seq<Span>>)
    ensures Members(a + b) == Members(a) + Members(b)
  {
    hide Members;
    MembersFirst(a);
    if a == [] {
      assert a + b == b;
    } else {
      MembersAppend(a[1..], b);
      MembersFirst(a + b);
      assert (a + b)[0] == a[0] && (a + b)[1..] == a[1..] + b;
    }
  }

  lemma MembersSplit(groups: seq<seq<Span>>, g: nat)
    requires g < |groups|
    ensures Members(groups[..g]) + multiset(groups[g]) == Members(groups[..g + 1])
    ensures Members(groups[..g + 1]) <= Members(groups)
  {
    hide Members;
    var one := [groups[g]];
    MembersFirst(one);
    MembersFirst(one[1..]);
    assert groups[..g + 1] == groups[..g] + one;
    MembersAppend(groups[..g], one);
    assert groups == groups[..g + 1] + groups[g + 1..];
    MembersAppend(groups[..g + 1], groups[g + 1..]);
  }

  lemma OutNext(tc0: Transitions, tc: Transitions, key: Slot, m: Name, sig: Signature, g: nat, i: nat,
                slot: Slot, s: Signature)
    requires OutStep(tc0, tc, key, m, sig, g, i)
    requires g < |sig| && i < |sig[g]|
    requires slot == Slot(m, sig, g, sig[g][i], multiset(sig[g][..i])[sig[g][i]])
    ensures OutStep(tc0, Increment(tc, slot, s), key, m, sig, g, i + 1)
  {
    assert sig[g][..i + 1] == sig[g][..i] + [sig[g][i]];
  }

  lemma OutRow(tc0: Transitions, tc: Transitions, key: Slot, m: Name, sig: Signature, g: nat)
    requires g < |sig| && OutStep(tc0, tc, key, m, sig, g, |sig[g]|)
    ensures OutStep(tc0, tc, key, m, sig, g + 1, 0)
  {
    assert sig[g][..|sig[g]|] == sig[g];
    if key.group == g + 1 && key.group < |sig| {
      assert sig[g + 1][..0] == [];
    }
  }

  /** Where the counting of one parent stands. */
  ghost predicate Counting(tc0: Transitions, tc: Transitions, bag: multiset<Span>, sigs: map<Name, Signature>,
                           m: Name, sig: Signature, g: nat, i: nat)
  {
    && (forall key :: OutStep(tc0, tc, key, m, sig, g, i))
    && (forall m', s :: InStep(tc0, tc, SetOf(bag), sigs, m', s))
  }

  lemma CountingNext(tc0: Transitions, tc: Transitions, bag: multiset<Span>, sigs: map<Name, Signature>,
                     m: Name, sig: Signature, g: nat, i: nat, child: Span)
    requires Counting(tc0, tc, bag, sigs, m, sig, g, i)
    requires g < |sig| && i < |sig[g]| && sig[g][i] == child.methodName && child.rpcId in sigs && child !in bag
    ensures var slot := Slot(m, sig, g, child.methodName, multiset(sig[g][..i])[child.methodName]);
            Counting(tc0, Increment(tc, slot, sigs[child.rpcId]), bag + multiset{child}, sigs, m, sig, g, i + 1)
  {
    var slot := Slot(m, sig, g, child.methodName, multiset(sig[g][..i])[child.methodName]);
    var tc', bag', i' := Increment(tc, slot, sigs[child.rpcId]), bag + multiset{child}, i + 1;
    forall key ensures OutStep(tc0, tc', key, m, sig, g, i') {
      assert OutStep(tc0, tc, key, m, sig, g, i);
      OutNext(tc0, tc, key, m, sig, g, i, slot, sigs[child.rpcId]);
    }
    forall m', s ensures InStep(tc0, tc', SetOf(bag'), sigs, m', s) {
      assert InStep(tc0, tc, SetOf(bag), sigs, m', s);
      InNext(tc0, tc, bag, child, sigs, slot, m', s);
    }
  }

  lemma CountingRow(tc0: Transitions, tc: Transitions, bag: multiset<Span>, sigs: map<Name, Signature>,
                    m: Name, sig: Signature, g: nat)
    requires g < |sig| && Counting(tc0, tc, bag, sigs, m, sig, g, |sig[g]|)
    ensures Counting(tc0, tc, bag, sigs, m, sig, g + 1, 0)
  {
    var g' := g + 1;
    forall key ensures OutStep(tc0, tc, key, m, sig, g', 0) {
      assert OutStep(tc0, tc, key, m, sig, g, |sig[g]|);
      OutRow(tc0, tc, key, m, sig, g);
    }
  }

  // ----- the exact contribution of one caller

  lemma {:induction false} NthSome(group: seq<Span>, target: Name, n: nat)
    ensures Nth(group, target, n).Some? <==> n < multiset(GroupSignature(group))[target]
  {
    if group != [] {
      assert GroupSignature(group) == [group[0].methodName] + GroupSignature(group[1..]);
      NthSome(group[1..], target, n);
      if n > 0 {
        NthSome(group[1..], target, n - 1);
      }
    }
  }

  lemma {:induction false} NthSnoc(group: seq<Span>, c: Span, target: Name, n: nat)
    ensures Nth(group + [c], target, n) ==
            if Nth(group, target, n).Some? then Nth(group, target, n)
            else if c.methodName == target && n == multiset(GroupSignature(group))[target] then Some(c) else None
  {
    if group == [] {
      assert group + [c] == [c];
    } else {
      assert (group + [c])[1..] == group[1..] + [c];
      assert GroupSignature(group) == [group[0].methodName] + GroupSignature(group[1..]);
      NthSnoc(group[1..], c, target, n);
      if n > 0 {
        NthSnoc(group[1..], c, target, n - 1);
      }
      NthSome(group[1..], target, n);
    }
  }

  /** Every counter has grown by what the calls in `done` contribute. */
  ghost predicate Exact(tc0: Transitions, tc: Transitions, m: Name, sig: Signature, done: seq<seq<Span>>,
                        sigs: map<Name, Signature>)
  {
    forall key :: Counter(tc, key) == Counter(tc0, key) + AddedSoFar(m, sig, done, sigs, key)
  }

  lemma ExactStart(tc: Transitions, m: Name, sig: Signature, sigs: map<Name, Signature>)
    ensures Exact(tc, tc, m, sig, [], sigs)
  {
  }

  lemma ExactNext(tc0: Transitions, tc: Transitions, m: Name, sig: Signature, done: seq<seq<Span>>, part: seq<Span>,
                  child: Span,
                  sigs: map<Name, Signature>, slot: Slot)
    requires Exact(tc0, tc, m, sig, done + [part], sigs) && child.rpcId in sigs
    requires slot == Slot(m, sig, |done|, child.methodName, multiset(GroupSignature(part))[child.methodName])
    ensures Exact(tc0, Increment(tc, slot, sigs[child.rpcId]), m, sig, done + [part + [child]], sigs)
  {
    var tc' := Increment(tc, slot, sigs[child.rpcId]);
    var now, then' := done + [part], done + [part + [child]];
    hide AddedSoFar, GroupSignature;
    forall key ensures Counter(tc', key) == Counter(tc0, key) + AddedSoFar(m, sig, then', sigs, key) {
      assert Counter(tc, key) == Counter(tc0, key) + AddedSoFar(m, sig, now, sigs, key);
      AddedNext(m, sig, done, part, child, sigs, key, slot);
      IncrementAt(tc, slot, sigs[child.rpcId], key);
      hide Counter, Increment;
    }
  }

  lemma IncrementAt(tc: Transitions, slot: Slot, s: Signature, key: Slot)
    ensures Counter(Increment(tc, slot, s), key) == Counter(tc, key) + if key == slot then multiset{s} else multiset{}
  {
  }

  lemma AddedNext(m: Name, sig: Signature, done: seq<seq<Span>>, part: seq<Span>, child: Span,
                  sigs: map<Name, Signature>, key: Slot, slot: Slot)
    requires child.rpcId in sigs
    requires slot == Slot(m, sig, |done|, child.methodName, multiset(GroupSignature(part))[child.methodName])
    ensures AddedSoFar(m, sig, done + [part + [child]], sigs, key) ==
            AddedSoFar(m, sig, done + [part], sigs, key) +
            if key == slot then multiset{sigs[child.rpcId]} else multiset{}
  {
    NthSnoc(part, child, key.target, key.occurrence);
    NthSome(part, key.target, key.occurrence);
    hide Nth, GroupSignature;
  }

  lemma ExactStage(tc0: Transitions, tc: Transitions, m: Name, sig: Signature, done: seq<seq<Span>>,
                   sigs: map<Name, Signature>)
    requires Exact(tc0, tc, m, sig, done, sigs)
    ensures Exact(tc0, tc, m, sig, done + [[]], sigs)
  {
  }

  /** How often each name occurs before position `i`. */
  ghost predicate Seen(names: seq<Name>, i: nat, seen: map<Name, nat>) {
    i <= |names| && forall t :: GetOr(seen, t, 0) == multiset(names[..i])[t]
  }

  lemma SeenNext(names: seq<Name>, i: nat, seen: map<Name, nat>)
    requires i < |names| && Seen(names, i, seen)
    ensures GetOr(seen, names[i], 0) == multiset(names[..i])[names[i]]
    ensures Seen(names, i + 1, seen[names[i] := GetOr(seen, names[i], 0) + 1])
  {
    var next := names[..i + 1];
    assert next == names[..i] + [names[i]];
    var seen' := seen[names[i] := GetOr(seen, names[i], 0) + 1];
    forall t ensures GetOr(seen', t, 0) == multiset(next)[t] {
      assert multiset(next)[t] == multiset(names[..i])[t] + if t == names[i] then 1 else 0;
    }
  }

  /** What has been counted before call `i` of stage `g`. */
  ghost predicate StageAt(m: Name, sig: Signature, groups: seq<seq<Span>>, g: nat, i: nat, sigs: map<Name, Signature>,
                          tc0: Transitions, tc: Transitions)
    requires g < |groups| && i <= |groups[g]|
  {
    && Counting(tc0, tc, Members(groups[..g]) + multiset(groups[g][..i]), sigs, m, sig, g, i)
    && Exact(tc0, tc, m, sig, groups[..g] + [groups[g][..i]], sigs)
  }

  lemma StageBegins(m: Name, sig: Signature, groups: seq<seq<Span>>, g: nat, sigs: map<Name, Signature>,
                    tc0: Transitions, tc: Transitions)
    requires g < |groups| && Counting(tc0, tc, Members(groups[..g]), sigs, m, sig, g, 0) &&
             Exact(tc0, tc, m, sig, groups[..g], sigs)
    ensures StageAt(m, sig, groups, g, 0, sigs, tc0, tc)
  {
    ExactStage(tc0, tc, m, sig, groups[..g], sigs);
    hide Counting, Exact, Members;
    assert groups[g][..0] == [];
    assert Members(groups[..g]) + multiset(groups[g][..0]) == Members(groups[..g]);
  }

  lemma StageEnds(m: Name, sig: Signature, groups: seq<seq<Span>>, g: nat, sigs: map<Name, Signature>,
                  tc0: Transitions, tc: Transitions)
    requires g < |groups| && |sig| == |groups| && |sig[g]| == |groups[g]| &&
             StageAt(m, sig, groups, g, |groups[g]|, sigs, tc0, tc)
    ensures Counting(tc0, tc, Members(groups[..g + 1]), sigs, m, sig, g + 1, 0) &&
            Exact(tc0, tc, m, sig, groups[..g + 1], sigs)
  {
    hide Counting, Exact, Members;
    assert groups[g][..|groups[g]|] == groups[g] && groups[..g + 1] == groups[..g] + [groups[g]];
    MembersSplit(groups, g);
    CountingRow(tc0, tc, Members(groups[..g + 1]), sigs, m, sig, g);
  }

  lemma StageNext(m: Name, sig: Signature, groups: seq<seq<Span>>, g: nat, i: nat, sigs: map<Name, Signature>,
                  tc0: Transitions, tc: Transitions, slot: Slot)
    requires sig == SignatureOf(groups) && DistinctIds(Members(groups)) && g < |groups| && i < |groups[g]|
    requires forall c :: c in Members(groups) ==> c.rpcId in sigs
    requires StageAt(m, sig, groups, g, i, sigs, tc0, tc)
    requires var t := groups[g][i].methodName; slot == Slot(m, sig, g, t, multiset(GroupSignature(groups[g][..i]))[t])
    ensures groups[g][i].rpcId in sigs
    ensures StageAt(m, sig, groups, g, i + 1, sigs, tc0, Increment(tc, slot, sigs[groups[g][i].rpcId]))
  {
    hide Counting, Exact, Members, SignatureOf, GroupSignature, DistinctIds;
    var group, child, bag := groups[g], groups[g][i], Members(groups[..g]) + multiset(groups[g][..i]);
    ChildAt(sig, groups, g, i);
    FreshChild(groups, g, i, bag);
    CountingNext(tc0, tc, bag, sigs, m, sig, g, i, child);
    ExactNext(tc0, tc, m, sig, groups[..g], group[..i], child, sigs, slot);
    var before, here, after := Members(groups[..g]), group[..i], group[..i + 1];
    assert after == here + [child];
    AddToBag(before, here, child);
  }

  lemma AddToBag(bag: multiset<Span>, group: seq<Span>, child: Span)
    ensures bag + multiset(group) + multiset{child} == bag + multiset(group + [child])
  {
  }

  lemma ChildAt(sig: Signature, groups: seq<seq<Span>>, g: nat, i: nat)
    requires sig == SignatureOf(groups) && g < |groups| && i < |groups[g]|
    ensures |sig| == |groups| && |sig[g]| == |groups[g]|
    ensures sig[g][..i] == GroupSignature(groups[g][..i]) && sig[g][i] == groups[g][i].methodName
  {
    SignatureAt(groups, g);
    hide SignatureOf;
    assert sig[g][..i] == GroupSignature(groups[g][..i]);
  }

  /** Counts the calls of one stage, numbering repeated targets. */
  method CountStage(m: Name, sig: Signature, groups: seq<seq<Span>>, g: nat, sigs: map<Name, Signature>,
                    ghost tc0: Transitions, tc1: Transitions)
    returns (tc: Transitions)
    requires sig == SignatureOf(groups) && DistinctIds(Members(groups)) && g < |groups|
    requires forall c :: c in Members(groups) ==> c.rpcId in sigs
    requires Counting(tc0, tc1, Members(groups[..g]), sigs, m, sig, g, 0)
    requires Exact(tc0, tc1, m, sig, groups[..g], sigs)
    ensures Counting(tc0, tc, Members(groups[..g + 1]), sigs, m, sig, g + 1, 0)
    ensures Exact(tc0, tc, m, sig, groups[..g + 1], sigs)
  {
    tc := tc1;
    var seen: map<Name, nat> := map[];
    var group := groups[g];
    ghost var names := GroupSignature(group);
    assert names[..0] == [] && Seen(names, 0, seen);
    SignatureAt(groups, g);
    StageBegins(m, sig, groups, g, sigs, tc0, tc);
    hide Seen, StageAt, Counting, Exact, Members, SignatureOf, GroupSignature, DistinctIds, Increment;
    for i := 0 to |group|
      invariant Seen(names, i, seen)
      invariant StageAt(m, sig, groups, g, i, sigs, tc0, tc)
    {
      var child := group[i];
      ChildAt(sig, groups, g, i);
      SeenNext(names, i, seen);
      var occurrence := GetOr(seen, child.methodName, 0);
      seen := seen[child.methodName := occurrence + 1];
      StageNext(m, sig, groups, g, i, sigs, tc0, tc, Slot(m, sig, g, child.methodName, occurrence));
      // A child without a signature would be skipped; every span has one.
      if child.rpcId !in sigs {
        assert false;
      } else {
        tc := Increment(tc, Slot(m, sig, g, child.methodName, occurrence), sigs[child.rpcId]);
      }
    }
    StageEnds(m, sig, groups, g, sigs, tc0, tc);
  }

  lemma SignatureAt(groups: seq<seq<Span>>, g: nat)
    requires g < |groups|
    ensures SignatureOf(groups)[g] == GroupSignature(groups[g])
  {
  }

  /** What counting the calls of one caller did. */
  ghost predicate Counted(tc0: Transitions, tc: Transitions, m: Name, sig: Signature, kids: set<Span>,
                          sigs: map<Name, Signature>)
  {
    && (forall key :: |Counter(tc, key)| ==
          |Counter(tc0, key)| + if key.method' == m && key.signature == sig && IsSlot(key) then 1 else 0)
    && (forall m', s :: InStep(tc0, tc, kids, sigs, m', s))
  }

  /** Counts, for every call of a parent, the signature of the callee in its slot. */
  method AddTransitionCounts(m: Name, sig: Signature, groups: seq<seq<Span>>, sigs: map<Name, Signature>,
                             tc0: Transitions)
    returns (tc: Transitions)
    requires sig == SignatureOf(groups) && DistinctIds(Members(groups))
    requires forall c :: c in Members(groups) ==> c.rpcId in sigs
    ensures Counted(tc0, tc, m, sig, SetOf(Members(groups)), sigs)
    ensures forall key :: Counter(tc, key) == Counter(tc0, key) + Added(m, groups, sigs, key)
  {
    hide Counted, AddedSoFar, Counting, Exact, DistinctIds, Counter;
    tc := tc0;
    assert groups[..0] == [] && groups[..|groups|] == groups && Members([]) == multiset{};
    hide Members;
    CountingStart(tc, sigs, m, sig);
    ExactStart(tc, m, sig, sigs);
    for g := 0 to |groups|
      invariant Counting(tc0, tc, Members(groups[..g]), sigs, m, sig, g, 0)
      invariant Exact(tc0, tc, m, sig, groups[..g], sigs)
    {
      tc := CountStage(m, sig, groups, g, sigs, tc0, tc);
    }
    CountingDone(tc0, tc, Members(groups), sigs, m, sig);
    ExactDone(tc0, tc, m, groups, sigs);
  }

  lemma CountingStart(tc: Transitions, sigs: map<Name, Signature>, m: Name, sig: Signature)
    ensures Counting(tc, tc, multiset{}, sigs, m, sig, 0, 0)
  {
    assert |sig| > 0 ==> sig[0][..0] == [];
  }

  lemma ExactDone(tc0: Transitions, tc: Transitions, m: Name, groups: seq<seq<Span>>, sigs: map<Name, Signature>)
    requires Exact(tc0, tc, m, SignatureOf(groups), groups, sigs)
    ensures forall key :: Counter(tc, key) == Counter(tc0, key) + Added(m, groups, sigs, key)
  {
    hide AddedSoFar, Counter, SignatureOf;
  }

  lemma CountingDone(tc0: Transitions, tc: Transitions, bag: multiset<Span>, sigs: map<Name, Signature>,
                     m: Name, sig: Signature)
    requires Counting(tc0, tc, bag, sigs, m, sig, |sig|, 0)
    ensures Counted(tc0, tc, m, sig, SetOf(bag), sigs)
  {
    forall key ensures |Counter(tc, key)| ==
      |Counter(tc0, key)| + if key.method' == m && key.signature == sig && IsSlot(key) then 1 else 0
    {
      assert OutStep(tc0, tc, key, m, sig, |sig|, 0);
    }
  }

  /** A child that has not been counted yet is not among the counted ones. */
  lemma FreshChild(groups: seq<seq<Span>>, g: nat, i: nat, bag: multiset<Span>)
    requires g < |groups| && i < |groups[g]| && DistinctIds(Members(groups))
    requires bag == Members(groups[..g]) + multiset(groups[g][..i])
    ensures groups[g][i] !in bag && groups[g][i] in Members(groups)
  {
    MembersSplit(groups, g);
    var child, group := groups[g][i], groups[g];
    assert group == group[..i] + [child] + group[i + 1..];
    assert bag + multiset{child} <= Members(groups[..g + 1]) <= Members(groups);
    assert (bag + multiset{child})[child] <= Members(groups)[child];
  }

  lemma InNext(tc0: Transitions, tc: Transitions, bag: multiset<Span>, child: Span, sigs: map<Name, Signature>,
               slot: Slot, m: Name, s: Signature)
    requires InStep(tc0, tc, SetOf(bag), sigs, m, s)
    requires child !in bag && child.rpcId in sigs && slot.target == child.methodName
    ensures InStep(tc0, Increment(tc, slot, sigs[child.rpcId]), SetOf(bag + multiset{child}), sigs, m, s)
  {
    InflowIncrement(tc, slot, sigs[child.rpcId], m, s);
    MatchAdd(SetOf(bag), child, sigs, m, s);
    assert SetOf(bag + multiset{child}) == SetOf(bag) + {child};
  }

  // ----- the forest of one trace

  ghost predicate KidsListed(spans: Trace, done: set<Name>, children: map<Name, seq<Span>>, p: Name) {
    p in spans ==> multiset(GetOr(children, p, [])) == multiset(KidsOf(spans, done, p))
  }

  lemma KidsGrow(spans: Trace, done: set<Name>, k: Name, p: Name)
    requires TraceOk(spans) && k in spans && k !in done
    ensures multiset(KidsOf(spans, done + {k}, p)) ==
            multiset(KidsOf(spans, done, p)) + if ParentRpcId(k) == Some(p) then multiset{spans[k]} else multiset{}
  {
    if ParentRpcId(k) == Some(p) {
      assert KidsOf(spans, done + {k}, p) == KidsOf(spans, done, p) + {spans[k]};
      assert spans[k] !in KidsOf(spans, done, p);
    } else {
      assert KidsOf(spans, done + {k}, p) == KidsOf(spans, done, p);
    }
  }

  lemma RootsGrow(spans: Trace, done: set<Name>, k: Name, missing: bool)
    requires TraceOk(spans) && k in spans && k !in done
    ensures multiset(RootsOf(spans, done + {k}, missing)) ==
            multiset(RootsOf(spans, done, missing)) +
            if IsRoot(spans, k, missing) then multiset{spans[k]} else multiset{}
  {
    if IsRoot(spans, k, missing) {
      assert RootsOf(spans, done + {k}, missing) == RootsOf(spans, done, missing) + {spans[k]};
      assert spans[k] !in RootsOf(spans, done, missing);
    } else {
      assert RootsOf(spans, done + {k}, missing) == RootsOf(spans, done, missing);
    }
  }

  ghost predicate ForestListed(spans: Trace, done: set<Name>, children: map<Name, seq<Span>>) {
    forall p :: KidsListed(spans, done, children, p)
  }

  /** A span is appended to the children of its parent, if the parent is in the trace. */
  lemma ForestGrows(spans: Trace, done: set<Name>, children: map<Name, seq<Span>>, k: Name,
                    children': map<Name, seq<Span>>)
    requires TraceOk(spans) && k in spans && k !in done && ForestListed(spans, done, children)
    requires children' == match ParentRpcId(k)
                          case None => children
                          case Some(p) =>
                            if p in spans then children[p := GetOr(children, p, []) + [spans[k]]] else children
    ensures ForestListed(spans, done + {k}, children')
  {
    var done' := done + {k};
    forall p ensures KidsListed(spans, done', children', p) {
      assert KidsListed(spans, done, children, p);
      KidsGrow(spans, done, k, p);
      hide KidsOf;
    }
  }

  /** Sorts the spans into children lists, roots, and spans that are dropped. */
  method BuildForest(spans: Trace, missingParentAsRoot: bool) returns (children: map<Name, seq<Span>>, roots: seq<Span>)
    requires TraceOk(spans)
    ensures forall p :: KidsListed(spans, spans.Keys, children, p)
    ensures multiset(roots) == multiset(RootsOf(spans, spans.Keys, missingParentAsRoot))
  {
    children, roots := map[], [];
    var todo := spans.Keys;
    ghost var done: set<Name> := {};
    forall p ensures KidsListed(spans, done, children, p) {
      assert KidsOf(spans, done, p) == {};
    }
    assert ForestListed(spans, done, children);
    assert RootsOf(spans, done, missingParentAsRoot) == {};
    hide ForestListed, RootsOf, TraceOk;
    while todo != {}
      invariant todo <= spans.Keys && done == spans.Keys - todo
      invariant ForestListed(spans, done, children)
      invariant multiset(roots) == multiset(RootsOf(spans, done, missingParentAsRoot))
      decreases todo
    {
      var k :| k in todo;
      var span, parent := spans[k], ParentRpcId(k);
      ghost var before := children;
      RootsGrow(spans, done, k, missingParentAsRoot);
      if parent.None? {
        roots := roots + [span];
      } else if parent.value in spans {
        children := children[parent.value := GetOr(children, parent.value, []) + [span]];
      } else if missingParentAsRoot {
        roots := roots + [span];
      }
      ForestGrows(spans, done, before, k, children);
      todo, done := todo - {k}, done + {k};
    }
    assert done == spans.Keys;
    ForestMeans(spans, children);
  }

  lemma ForestMeans(spans: Trace, children: map<Name, seq<Span>>)
    requires ForestListed(spans, spans.Keys, children)
    ensures forall p :: KidsListed(spans, spans.Keys, children, p)
  {
    hide KidsListed;
  }

  // ----- the conserved flow

  /** Every slot of a variant was counted once per occurrence of the variant whose calls are already counted. */
  ghost predicate OutAt(ms: Counts, tc: Transitions, pending: set<Span>, sigs: map<Name, Signature>, key: Slot) {
    |Counter(tc, key)| + (if IsSlot(key) then MatchCount(pending, sigs, key.method', key.signature) else 0) ==
    if IsSlot(key) then Counter(ms, key.method')[key.signature] else 0
  }

  /** Every occurrence of a variant flowed in from one slot, except the pending ones and the orphans. */
  ghost predicate InAt(ms: Counts, tc: Transitions, pending: set<Span>, sigs: map<Name, Signature>,
                       orphans: multiset<(Name, Signature)>, m: Name, s: Signature)
  {
    if m == USER then Inflow(tc, m, s) == 0
    else Inflow(tc, m, s) + MatchCount(pending, sigs, m, s) + orphans[(m, s)] == Counter(ms, m)[s]
  }

  /** Between traces: for every slot the callee counts add up to the count of the variant it belongs to. */
  ghost predicate FlowOut(ms: Counts, tc: Transitions) {
    forall key :: |Counter(tc, key)| == if IsSlot(key) then Counter(ms, key.method')[key.signature] else 0
  }

  /** Between traces: the inflow of a variant is its count, less the dropped orphans; nothing calls USER. */
  ghost predicate FlowIn(ms: Counts, tc: Transitions, orphans: multiset<(Name, Signature)>) {
    forall m, s :: if m == USER then Inflow(tc, m, s) == 0
                   else Inflow(tc, m, s) + orphans[(m, s)] == Counter(ms, m)[s]
  }

  /** The groups and the signature found for a span are those of its children. */
  ghost predicate SignedOk(spans: Trace, threshold: real, k: Name, groups: map<Name, seq<seq<Span>>>,
                           sigs: map<Name, Signature>)
  {
    && k in spans && k in groups && k in sigs
    && groups[k] == SpanStages(spans, threshold, k)
    && sigs[k] == SignatureOf(groups[k])
    && Members(groups[k]) == multiset(KidsOf(spans, spans.Keys, k))
  }

  /** All spans but those in `todo` have been signed. */
  ghost predicate Signed(spans: Trace, threshold: real, todo: set<Name>, groups: map<Name, seq<seq<Span>>>,
                         sigs: map<Name, Signature>)
  {
    && sigs.Keys == spans.Keys - todo
    && forall k :: k in spans && k !in todo ==> SignedOk(spans, threshold, k, groups, sigs)
  }

  lemma SignedKeys(spans: Trace, threshold: real, todo: set<Name>, groups: map<Name, seq<seq<Span>>>,
                   sigs: map<Name, Signature>)
    requires Signed(spans, threshold, todo, groups, sigs)
    ensures forall k :: k in spans && k !in todo ==> k in sigs
  {
    hide SignedOk;
  }

  lemma SpanIsNamed(spans: Trace, k: Name)
    requires TraceOk(spans) && k in spans
    ensures spans[k].rpcId == k && spans[k].methodName != USER
  {
  }

  lemma SignedNext(spans: Trace, threshold: real, todo: set<Name>, groups: map<Name, seq<seq<Span>>>,
                   sigs: map<Name, Signature>,
                   k: Name, g: seq<seq<Span>>, s: Signature)
    requires Signed(spans, threshold, todo, groups, sigs) && k in todo && todo <= spans.Keys
    requires g == SpanStages(spans, threshold, k) && s == SignatureOf(g) &&
             Members(g) == multiset(KidsOf(spans, spans.Keys, k))
    ensures k !in sigs && Signed(spans, threshold, todo - {k}, groups[k := g], sigs[k := s])
  {
    hide SpanStages, SignatureOf, Members, KidsOf;
    var groups', sigs' := groups[k := g], sigs[k := s];
    forall j | j in spans && j !in todo - {k} ensures SignedOk(spans, threshold, j, groups', sigs') {
      assert j != k ==> SignedOk(spans, threshold, j, groups, sigs);
    }
  }

  lemma SignedMeansSigning(spans: Trace, threshold: real, groups: map<Name, seq<seq<Span>>>, sigs: map<Name, Signature>)
    requires Signed(spans, threshold, {}, groups, sigs)
    ensures sigs == Signing(spans, threshold) && sigs.Keys == spans.Keys
    ensures forall k :: k in spans ==> SignedOk(spans, threshold, k, groups, sigs)
  {
    hide SpanStages, SignatureOf, Members, KidsOf, Groups;
    forall k | k in spans ensures sigs[k] == Signing(spans, threshold)[k] {
      assert SignedOk(spans, threshold, k, groups, sigs);
    }
  }

  /** The counts are balanced once the pending spans are taken into account. */
  ghost predicate Balanced(ms: Counts, tc: Transitions, out: set<Span>, inn: set<Span>, sigs: map<Name, Signature>,
                           orphans: multiset<(Name, Signature)>)
  {
    && (forall key :: OutAt(ms, tc, out, sigs, key))
    && (forall m, s :: InAt(ms, tc, inn, sigs, orphans, m, s))
  }

  lemma MatchSigned(done: set<Span>, sigs: map<Name, Signature>, c: Span, s: Signature, m: Name, t: Signature)
    requires c !in done && c.rpcId !in sigs
    requires forall d :: d in done ==> d.rpcId in sigs
    ensures MatchCount(done + {c}, sigs[c.rpcId := s], m, t) ==
            MatchCount(done, sigs, m, t) + if c.methodName == m && s == t then 1 else 0
  {
    var sigs' := sigs[c.rpcId := s];
    MatchAdd(done, c, sigs', m, t);
    assert Matching(done, sigs', m, t) == Matching(done, sigs, m, t);
  }

  /** A counted span adds one occurrence that is pending in both directions. */
  lemma SpanCounted(ms: Counts, tc: Transitions, done: set<Span>, sigs: map<Name, Signature>,
                    orphans: multiset<(Name, Signature)>, c: Span, s: Signature)
    requires c !in done && c.rpcId !in sigs && c.methodName != USER
    requires forall d :: d in done ==> d.rpcId in sigs
    requires Balanced(ms, tc, done, done, sigs, orphans)
    ensures Balanced(Increment(ms, c.methodName, s), tc, done + {c}, done + {c}, sigs[c.rpcId := s], orphans)
  {
    hide OutAt, InAt, Increment;
    var ms', done', sigs' := Increment(ms, c.methodName, s), done + {c}, sigs[c.rpcId := s];
    forall key ensures OutAt(ms', tc, done', sigs', key) {
      SpanCountedOut(ms, tc, done, sigs, orphans, c, s, key);
    }
    forall m, t ensures InAt(ms', tc, done', sigs', orphans, m, t) {
      SpanCountedIn(ms, tc, done, sigs, orphans, c, s, m, t);
    }
  }

  lemma SpanCountedOut(ms: Counts, tc: Transitions, done: set<Span>, sigs: map<Name, Signature>,
                       orphans: multiset<(Name, Signature)>, c: Span, s: Signature, key: Slot)
    requires c !in done && c.rpcId !in sigs && c.methodName != USER
    requires forall d :: d in done ==> d.rpcId in sigs
    requires Balanced(ms, tc, done, done, sigs, orphans)
    ensures OutAt(Increment(ms, c.methodName, s), tc, done + {c}, sigs[c.rpcId := s], key)
  {
    hide MatchCount, IsSlot;
    assert OutAt(ms, tc, done, sigs, key);
    MatchSigned(done, sigs, c, s, key.method', key.signature);
  }

  lemma SpanCountedIn(ms: Counts, tc: Transitions, done: set<Span>, sigs: map<Name, Signature>,
                      orphans: multiset<(Name, Signature)>, c: Span, s: Signature, m: Name, t: Signature)
    requires c !in done && c.rpcId !in sigs && c.methodName != USER
    requires forall d :: d in done ==> d.rpcId in sigs
    requires Balanced(ms, tc, done, done, sigs, orphans)
    ensures InAt(Increment(ms, c.methodName, s), tc, done + {c}, sigs[c.rpcId := s], orphans, m, t)
  {
    hide MatchCount, Inflow;
    assert InAt(ms, tc, done, sigs, orphans, m, t);
    MatchSigned(done, sigs, c, s, m, t);
  }

  lemma NothingPendingAt(ms: Counts, tc: Transitions, sigs: map<Name, Signature>, orphans: multiset<(Name, Signature)>)
    ensures forall key :: OutAt(ms, tc, {}, sigs, key) <==>
              |Counter(tc, key)| == if IsSlot(key) then Counter(ms, key.method')[key.signature] else 0
    ensures forall m, s :: InAt(ms, tc, {}, sigs, orphans, m, s) <==>
              if m == USER then Inflow(tc, m, s) == 0 else Inflow(tc, m, s) + orphans[(m, s)] == Counter(ms, m)[s]
  {
    hide Inflow, Counter, IsSlot;
    forall m, s ensures MatchCount({}, sigs, m, s) == 0 {
      assert Matching({}, sigs, m, s) == {};
    }
  }

  lemma NothingPending(ms: Counts, tc: Transitions, sigs: map<Name, Signature>, orphans: multiset<(Name, Signature)>)
    ensures Balanced(ms, tc, {}, {}, sigs, orphans) <==> FlowOut(ms, tc) && FlowIn(ms, tc, orphans)
  {
    NothingPendingAt(ms, tc, sigs, orphans);
    hide OutAt, InAt, Inflow, Counter, IsSlot;
  }

  /** The stages of one span's children, and the signature they show. */
  method SignSpan(spans: Trace, children: map<Name, seq<Span>>, threshold: real, k: Name)
    returns (groups: seq<seq<Span>>, sig: Signature)
    requires TraceOk(spans) && k in spans && forall p :: KidsListed(spans, spans.Keys, children, p)
    ensures groups == SpanStages(spans, threshold, k)
    ensures sig == SignatureOf(groups) && Members(groups) == multiset(KidsOf(spans, spans.Keys, k))
  {
    var listed := GetOr(children, k, []);
    assert KidsListed(spans, spans.Keys, children, k);
    KidsDistinct(spans, KidsOf(spans, spans.Keys, k));
    AnyListingWillDo(KidsOf(spans, spans.Keys, k), listed, threshold);
    GroupsPartition(listed, threshold);
    groups := GroupFanout(listed, threshold);
    sig := SignatureOf(groups);
  }

  /** Every variant has been counted once per span that shows it. */
  ghost predicate SpansCounted(ms0: Counts, ms: Counts, done: set<Span>, sigs: map<Name, Signature>) {
    forall m, s :: Counter(ms, m)[s] == Counter(ms0, m)[s] + MatchCount(done, sigs, m, s)
  }

  lemma SpansCountedNone(ms: Counts, sigs: map<Name, Signature>)
    ensures SpansCounted(ms, ms, {}, sigs)
  {
    forall m, s ensures MatchCount({}, sigs, m, s) == 0 {
      assert Matching({}, sigs, m, s) == {};
    }
  }

  lemma SpansCountedNext(ms0: Counts, ms: Counts, done: set<Span>, sigs: map<Name, Signature>, c: Span, s: Signature)
    requires SpansCounted(ms0, ms, done, sigs) && c !in done && c.rpcId !in sigs
    requires forall d :: d in done ==> d.rpcId in sigs
    ensures SpansCounted(ms0, Increment(ms, c.methodName, s), done + {c}, sigs[c.rpcId := s])
  {
    hide MatchCount;
    var ms', done', sigs' := Increment(ms, c.methodName, s), done + {c}, sigs[c.rpcId := s];
    forall m, t ensures Counter(ms', m)[t] == Counter(ms0, m)[t] + MatchCount(done', sigs', m, t) {
      assert Counter(ms, m)[t] == Counter(ms0, m)[t] + MatchCount(done, sigs, m, t);
      MatchSigned(done, sigs, c, s, m, t);
    }
  }

  /** Groups every span's children and counts its signature. */
  method SignSpans(spans: Trace, children: map<Name, seq<Span>>, threshold: real, ms0: Counts,
                   ghost tc: Transitions, ghost orphans: multiset<(Name, Signature)>)
    returns (ms: Counts, groups: map<Name, seq<seq<Span>>>, sigs: map<Name, Signature>)
    requires TraceOk(spans) && forall p :: KidsListed(spans, spans.Keys, children, p)
    requires FlowOut(ms0, tc) && FlowIn(ms0, tc, orphans)
    ensures Signed(spans, threshold, {}, groups, sigs)
    ensures SpansCounted(ms0, ms, AllSpans(spans), sigs)
    ensures Balanced(ms, tc, AllSpans(spans), AllSpans(spans), sigs, orphans)
  {
    ms, groups, sigs := ms0, map[], map[];
    var todo := spans.Keys;
    ghost var done: set<Span> := {};
    NothingPending(ms, tc, sigs, orphans);
    SpansCountedNone(ms0, sigs);
    hide Balanced, FlowOut, FlowIn, KidsOf, SpanStages, SignatureOf, Members, AllSpans, SpansCounted, Increment;
    SpansExceptAll(spans);
    assert Signed(spans, threshold, todo, groups, sigs);
    hide SpansExcept, KidsListed, Signed, TraceOk;
    while todo != {}
      invariant todo <= spans.Keys
      invariant done == SpansExcept(spans, todo)
      invariant Signed(spans, threshold, todo, groups, sigs)
      invariant SpansCounted(ms0, ms, done, sigs)
      invariant Balanced(ms, tc, done, done, sigs, orphans)
      decreases todo
    {
      var k :| k in todo;
      var g, s := SignSpan(spans, children, threshold, k);
      SpansExceptNext(spans, todo, k);
      SignedKeys(spans, threshold, todo, groups, sigs);
      SignedNext(spans, threshold, todo, groups, sigs, k, g, s);
      SpanIsNamed(spans, k);
      SpanCounted(ms, tc, done, sigs, orphans, spans[k], s);
      SpansCountedNext(ms0, ms, done, sigs, spans[k], s);
      ms := Increment(ms, spans[k].methodName, s);
      groups, sigs := groups[k := g], sigs[k := s];
      done, todo := done + {spans[k]}, todo - {k};
    }
    SpansExceptNone(spans);
  }

  ghost function SpansExcept(spans: Trace, todo: set<Name>): set<Span> {
    set k | k in spans && k !in todo :: spans[k]
  }

  lemma SpansExceptAll(spans: Trace)
    ensures SpansExcept(spans, spans.Keys) == {}
  {
  }

  lemma SpansExceptNext(spans: Trace, todo: set<Name>, k: Name)
    requires TraceOk(spans) && k in todo && k in spans
    ensures spans[k] !in SpansExcept(spans, todo)
    ensures forall d :: d in SpansExcept(spans, todo) ==> d.rpcId in spans && d.rpcId !in todo
    ensures SpansExcept(spans, todo - {k}) == SpansExcept(spans, todo) + {spans[k]}
  {
  }

  lemma SpansExceptNone(spans: Trace)
    ensures SpansExcept(spans, {}) == AllSpans(spans)
  {
  }

  // ----- counting the transitions of one trace

  ghost predicate NoUser(spans: set<Span>) {
    forall c :: c in spans ==> c.methodName != USER
  }

  lemma NoUserMatches(spans: set<Span>, sigs: map<Name, Signature>, s: Signature)
    requires NoUser(spans)
    ensures MatchCount(spans, sigs, USER, s) == 0
  {
    assert Matching(spans, sigs, USER, s) == {};
  }

  lemma InCounted(ms: Counts, tc: Transitions, inn: set<Span>, sigs: map<Name, Signature>,
                  orphans: multiset<(Name, Signature)>, tc': Transitions, kids: set<Span>, ms': Counts,
                  m: Name, s: Signature)
    requires InAt(ms, tc, inn, sigs, orphans, m, s) && InStep(tc, tc', kids, sigs, m, s)
    requires kids <= inn && NoUser(kids) && (m != USER ==> Counter(ms', m) == Counter(ms, m))
    ensures InAt(ms', tc', inn - kids, sigs, orphans, m, s)
  {
    MatchMinus(inn, kids, sigs, m, s);
    NoUserMatches(kids, sigs, s);
  }

  /** The artificial caller of the roots gets one occurrence and one transition per slot. */
  lemma UserCounted(ms: Counts, tc: Transitions, out: set<Span>, inn: set<Span>, sigs: map<Name, Signature>,
                    orphans: multiset<(Name, Signature)>, sig: Signature, tc': Transitions, kids: set<Span>)
    requires Balanced(ms, tc, out, inn, sigs, orphans) && Counted(tc, tc', USER, sig, kids, sigs)
    requires kids <= inn && NoUser(kids) && NoUser(out)
    ensures Balanced(Increment(ms, USER, sig), tc', out, inn - kids, sigs, orphans)
  {
    var ms', inn' := Increment(ms, USER, sig), inn - kids;
    forall key ensures OutAt(ms', tc', out, sigs, key) {
      assert OutAt(ms, tc, out, sigs, key);
      hide OutAt, IsSlot, Counter, Increment;
      UserOut(ms, tc, out, sigs, sig, tc', key);
    }
    hide OutAt, Increment;
    forall m, s ensures InAt(ms', tc', inn', sigs, orphans, m, s) {
      assert InAt(ms, tc, inn, sigs, orphans, m, s) && InStep(tc, tc', kids, sigs, m, s);
      InCounted(ms, tc, inn, sigs, orphans, tc', kids, ms', m, s);
    }
  }

  lemma UserOut(ms: Counts, tc: Transitions, out: set<Span>, sigs: map<Name, Signature>, sig: Signature,
                tc': Transitions, key: Slot)
    requires OutAt(ms, tc, out, sigs, key) && NoUser(out)
    requires |Counter(tc', key)| ==
             |Counter(tc, key)| + if key.method' == USER && key.signature == sig && IsSlot(key) then 1 else 0
    ensures OutAt(Increment(ms, USER, sig), tc', out, sigs, key)
  {
    NoUserMatches(out, sigs, key.signature);
    hide MatchCount, IsSlot;
  }

  lemma SpanOut(ms: Counts, tc: Transitions, out: set<Span>, sigs: map<Name, Signature>, c: Span, sig: Signature,
                tc': Transitions, key: Slot)
    requires OutAt(ms, tc, out, sigs, key) && c in out && Lookup(sigs, c.rpcId) == Some(sig)
    requires |Counter(tc', key)| ==
             |Counter(tc, key)| + if key.method' == c.methodName && key.signature == sig && IsSlot(key) then 1 else 0
    ensures OutAt(ms, tc', out - {c}, sigs, key)
  {
    MatchAdd(out - {c}, c, sigs, key.method', key.signature);
    assert out - {c} + {c} == out;
    hide MatchCount, IsSlot;
  }

  /** Counting the calls of a span settles its own occurrence and the occurrences of its children. */
  lemma ParentCounted(ms: Counts, tc: Transitions, out: set<Span>, inn: set<Span>, sigs: map<Name, Signature>,
                      orphans: multiset<(Name, Signature)>, c: Span, sig: Signature, tc': Transitions, kids: set<Span>)
    requires Balanced(ms, tc, out, inn, sigs, orphans) && Counted(tc, tc', c.methodName, sig, kids, sigs)
    requires c in out && Lookup(sigs, c.rpcId) == Some(sig) && kids <= inn && NoUser(kids)
    ensures Balanced(ms, tc', out - {c}, inn - kids, sigs, orphans)
  {
    var out', inn' := out - {c}, inn - kids;
    forall key ensures OutAt(ms, tc', out', sigs, key) {
      assert OutAt(ms, tc, out, sigs, key);
      SpanOut(ms, tc, out, sigs, c, sig, tc', key);
    }
    forall m, s ensures InAt(ms, tc', inn', sigs, orphans, m, s) {
      assert InAt(ms, tc, inn, sigs, orphans, m, s) && InStep(tc, tc', kids, sigs, m, s);
      InCounted(ms, tc, inn, sigs, orphans, tc', kids, ms, m, s);
    }
  }

  /** Spans that no caller has accounted for: children of the callers to come, and orphans. */
  ghost function Waiting(spans: Trace, todo: set<Name>, missing: bool): set<Span> {
    set k | k in spans && ((ParentRpcId(k).Some? && ParentRpcId(k).value in todo) || IsOrphan(spans, k, missing)) ::
      spans[k]
  }

  lemma WaitingFacts(spans: Trace, missing: bool)
    requires TraceOk(spans)
    ensures AllSpans(spans) - RootsOf(spans, spans.Keys, missing) == Waiting(spans, spans.Keys, missing)
    ensures Waiting(spans, {}, missing) == OrphansOf(spans, missing)
    ensures RootsOf(spans, spans.Keys, missing) <= AllSpans(spans) && NoUser(AllSpans(spans))
  {
    forall k | k in spans
      ensures spans[k] in AllSpans(spans) - RootsOf(spans, spans.Keys, missing) <==>
              spans[k] in Waiting(spans, spans.Keys, missing)
    {
    }
  }

  lemma WaitingNext(spans: Trace, todo: set<Name>, k: Name, missing: bool)
    requires TraceOk(spans) && todo <= spans.Keys && k in todo
    ensures KidsOf(spans, spans.Keys, k) <= Waiting(spans, todo, missing)
    ensures Waiting(spans, todo - {k}, missing) == Waiting(spans, todo, missing) - KidsOf(spans, spans.Keys, k)
    ensures KidsOf(spans, spans.Keys, k) <= AllSpans(spans)
  {
    forall j | j in spans
      ensures spans[j] in Waiting(spans, todo - {k}, missing) <==>
              spans[j] in Waiting(spans, todo, missing) - KidsOf(spans, spans.Keys, k)
    {
    }
  }

  lemma {:induction false} SettleOrphans(ms: Counts, tc: Transitions, inn: set<Span>, sigs: map<Name, Signature>,
                                         orphans: multiset<(Name, Signature)>)
    returns (orphans': multiset<(Name, Signature)>)
    requires Balanced(ms, tc, {}, inn, sigs, orphans) && forall c :: c in inn ==> c.rpcId in sigs
    ensures FlowOut(ms, tc) && FlowIn(ms, tc, orphans')
    ensures forall m, s :: orphans'[(m, s)] == orphans[(m, s)] + MatchCount(inn, sigs, m, s)
  {
    if inn == {} {
      orphans' := orphans;
      NothingPending(ms, tc, sigs, orphans);
    } else {
      var c :| c in inn;
      var rest := inn - {c};
      var more := orphans + multiset{(c.methodName, sigs[c.rpcId])};
      forall m, s ensures InAt(ms, tc, rest, sigs, more, m, s) {
        assert InAt(ms, tc, inn, sigs, orphans, m, s);
        MatchAdd(rest, c, sigs, m, s);
        assert rest + {c} == inn;
      }
      assert Balanced(ms, tc, {}, rest, sigs, more);
      orphans' := SettleOrphans(ms, tc, rest, sigs, more);
      forall m, s ensures orphans'[(m, s)] == orphans[(m, s)] + MatchCount(inn, sigs, m, s) {
        MatchAdd(rest, c, sigs, m, s);
        assert rest + {c} == inn;
      }
    }
  }

  /** Every counter has grown by what the given spans contribute. */
  ghost predicate SpansExact(tc0: Transitions, tc: Transitions, spans: Trace, threshold: real, ks: set<Name>)
    requires ks <= spans.Keys
  {
    forall key :: Counter(tc, key) == Counter(tc0, key) + SpansAdded(spans, threshold, ks, key)
  }

  ghost predicate SpanExact(tc0: Transitions, tc: Transitions, spans: Trace, threshold: real, k: Name)
    requires k in spans
  {
    forall key :: Counter(tc, key) == Counter(tc0, key) + SpanAdded(spans, threshold, k, key)
  }

  lemma SpansExactNext(tc0: Transitions, tc: Transitions, tc': Transitions, spans: Trace, threshold: real,
                       ks: set<Name>, k: Name)
    requires ks <= spans.Keys && k in spans && k !in ks
    requires SpansExact(tc0, tc, spans, threshold, ks) && SpanExact(tc, tc', spans, threshold, k)
    ensures SpansExact(tc0, tc', spans, threshold, ks + {k})
  {
    hide SpansAdded, SpanAdded;
    var ks' := ks + {k};
    forall key ensures Counter(tc', key) == Counter(tc0, key) + SpansAdded(spans, threshold, ks', key) {
      SpansAddedPick(spans, threshold, ks', key, k);
      assert ks' - {k} == ks;
    }
  }

  /** Counts the transitions of every span of a trace. */
  method CountTrace(spans: Trace, threshold: real, groups: map<Name, seq<seq<Span>>>, sigs: map<Name, Signature>,
                    missing: bool,
                    ms: Counts, tc0: Transitions, ghost orphans: multiset<(Name, Signature)>)
    returns (tc: Transitions)
    requires TraceOk(spans) && Signed(spans, threshold, {}, groups, sigs)
    requires Balanced(ms, tc0, AllSpans(spans), Waiting(spans, spans.Keys, missing), sigs, orphans)
    ensures SpansExact(tc0, tc, spans, threshold, spans.Keys)
    ensures Balanced(ms, tc, {}, OrphansOf(spans, missing), sigs, orphans)
  {
    tc := tc0;
    var todo := spans.Keys;
    ghost var out := AllSpans(spans);
    hide Balanced, Counted, Waiting, KidsOf, AllSpans, OrphansOf, SpansIn, TraceOk, SpansExact, SpanExact, Signed,
         SignedOk, Signing;
    WaitingFacts(spans, missing);
    SpansInFacts(spans);
    SpansExactNone(tc0, spans, threshold);
    SignedMeansSigning(spans, threshold, groups, sigs);
    ghost var done: set<Name> := {};
    while todo != {}
      invariant todo <= spans.Keys && done == spans.Keys - todo && out == SpansIn(spans, todo)
      invariant SpansExact(tc0, tc, spans, threshold, done)
      invariant Balanced(ms, tc, out, Waiting(spans, todo, missing), sigs, orphans)
      decreases todo
    {
      var k :| k in todo;
      ghost var before := tc;
      tc := CountSpan(spans, threshold, groups, sigs, missing, ms, tc, orphans, todo, k);
      SpansExactNext(tc0, before, tc, spans, threshold, done, k);
      SpansInDrop(spans, todo, k);
      todo, out, done := todo - {k}, out - {spans[k]}, done + {k};
    }
    assert done == spans.Keys;
  }

  lemma SpansInFacts(spans: Trace)
    ensures SpansIn(spans, spans.Keys) == AllSpans(spans) && SpansIn(spans, {}) == {}
  {
  }

  lemma SpansExactNone(tc: Transitions, spans: Trace, threshold: real)
    ensures SpansExact(tc, tc, spans, threshold, {})
  {
  }

  lemma SpansInDrop(spans: Trace, todo: set<Name>, k: Name)
    requires TraceOk(spans) && k in todo && todo <= spans.Keys
    ensures SpansIn(spans, todo - {k}) == SpansIn(spans, todo) - {spans[k]}
  {
  }

  ghost function SpansIn(spans: Trace, todo: set<Name>): set<Span> {
    set k | k in spans && k in todo :: spans[k]
  }

  method CountSpan(spans: Trace, ghost threshold: real, groups: map<Name, seq<seq<Span>>>, sigs: map<Name, Signature>,
                   ghost missing: bool, ghost ms: Counts, tc0: Transitions, ghost orphans: multiset<(Name, Signature)>,
                   ghost todo: set<Name>, k: Name)
    returns (tc: Transitions)
    requires TraceOk(spans) && sigs == Signing(spans, threshold) && k in spans &&
             SignedOk(spans, threshold, k, groups, sigs)
    requires todo <= spans.Keys && k in todo
    requires Balanced(ms, tc0, SpansIn(spans, todo), Waiting(spans, todo, missing), sigs, orphans)
    ensures SpanExact(tc0, tc, spans, threshold, k)
    ensures Balanced(ms, tc, SpansIn(spans, todo) - {spans[k]}, Waiting(spans, todo - {k}, missing), sigs, orphans)
  {
    ghost var kids := KidsOf(spans, spans.Keys, k);
    WaitingNext(spans, todo, k, missing);
    KidsDistinct(spans, kids);
    assert sigs.Keys == spans.Keys;
    hide Balanced, Counted, Waiting, KidsOf, Signing, SpanStages, Added;
    tc := AddTransitionCounts(spans[k].methodName, sigs[k], groups[k], sigs, tc0);
    ParentCounted(ms, tc0, SpansIn(spans, todo), Waiting(spans, todo, missing), sigs, orphans, spans[k], sigs[k], tc,
                  kids);
  }

  // ----- whole services

  /** One trace adds its variants and transitions to the counts. */
  ghost predicate TraceCounted(spans: Trace, threshold: real, missing: bool, ms0: Counts, tc0: Transitions,
                               ms: Counts, tc: Transitions)
  {
    && (forall key :: Counter(tc, key) == Counter(tc0, key) + TraceTransitions(spans, threshold, missing, key))
    && (forall m, s :: Counter(ms, m)[s] == Counter(ms0, m)[s] + TraceVariants(spans, threshold, missing, m, s))
  }

  ghost predicate RootExact(tc0: Transitions, tc: Transitions, spans: Trace, threshold: real, missing: bool) {
    forall key :: Counter(tc, key) == Counter(tc0, key) + RootAdded(spans, threshold, missing, key)
  }

  ghost predicate UserExact(ms0: Counts, ms: Counts, spans: Trace, threshold: real, missing: bool) {
    forall m, s :: Counter(ms, m)[s] == Counter(ms0, m)[s] + UserVariants(spans, threshold, missing, m, s)
  }

  /** Counts the transitions from the artificial caller, if the trace has roots. */
  method CountRoots(spans: Trace, roots: seq<Span>, threshold: real, missing: bool, sigs: map<Name, Signature>,
                    ms0: Counts, tc0: Transitions, ghost orphans: multiset<(Name, Signature)>)
    returns (ms: Counts, tc: Transitions)
    requires TraceOk(spans) && sigs == Signing(spans, threshold)
    requires multiset(roots) == multiset(RootsOf(spans, spans.Keys, missing))
    requires Balanced(ms0, tc0, AllSpans(spans), AllSpans(spans), sigs, orphans)
    ensures RootExact(tc0, tc, spans, threshold, missing) && UserExact(ms0, ms, spans, threshold, missing)
    ensures Balanced(ms, tc, AllSpans(spans), Waiting(spans, spans.Keys, missing), sigs, orphans)
  {
    ms, tc := ms0, tc0;
    ghost var kids := RootsOf(spans, spans.Keys, missing);
    WaitingFacts(spans, missing);
    KidsDistinct(spans, kids);
    assert sigs.Keys == spans.Keys;
    assert AllSpans(spans) - {} == AllSpans(spans);
    assert |multiset(kids)| == |multiset(roots)|;
    if roots != [] {
      AnyListingWillDo(kids, roots, threshold);
      GroupsPartition(roots, threshold);
      hide Balanced, Counted, Waiting, RootsOf, AllSpans, Signing, Groups, Added, TraceOk, RootExact, UserExact,
           Increment, SignatureOf;
      var rootGroups := GroupFanout(roots, threshold);
      var rootSig := SignatureOf(rootGroups);
      assert kids != {} && rootGroups == RootStages(spans, threshold, missing);
      tc := AddTransitionCounts(USER, rootSig, rootGroups, sigs, tc);
      UserCounted(ms, tc0, AllSpans(spans), AllSpans(spans), sigs, orphans, rootSig, tc, kids);
      ms := Increment(ms, USER, rootSig);
      RootsCounted(spans, threshold, missing, ms0, tc0, tc);
    } else {
      NoRoots(spans, threshold, missing, ms0, tc0);
    }
  }

  lemma RootsCounted(spans: Trace, threshold: real, missing: bool, ms: Counts, tc0: Transitions, tc: Transitions)
    requires RootsOf(spans, spans.Keys, missing) != {}
    requires forall key ::
               Counter(tc, key) ==
                 Counter(tc0, key) + Added(USER, RootStages(spans, threshold, missing), Signing(spans, threshold), key)
    ensures RootExact(tc0, tc, spans, threshold, missing)
    ensures UserExact(ms, Increment(ms, USER, SignatureOf(RootStages(spans, threshold, missing))), spans, threshold,
                      missing)
  {
    hide RootsOf, RootStages, Signing, Added, SignatureOf;
  }

  lemma NoRoots(spans: Trace, threshold: real, missing: bool, ms: Counts, tc: Transitions)
    requires RootsOf(spans, spans.Keys, missing) == {}
    ensures RootExact(tc, tc, spans, threshold, missing) && UserExact(ms, ms, spans, threshold, missing)
  {
  }

  /** Analyses one trace: its forest, the signatures of its spans, and the transitions between them. */
  method AnalyzeTrace(spans: Trace, threshold: real, missing: bool, ms0: Counts, tc0: Transitions,
                      ghost orphans0: multiset<(Name, Signature)>)
    returns (ms: Counts, tc: Transitions, ghost orphans: multiset<(Name, Signature)>)
    requires TraceOk(spans) && FlowOut(ms0, tc0) && FlowIn(ms0, tc0, orphans0)
    ensures TraceCounted(spans, threshold, missing, ms0, tc0, ms, tc)
    ensures FlowOut(ms, tc) && FlowIn(ms, tc, orphans)
    ensures forall m, s :: orphans[(m, s)] == orphans0[(m, s)] + TraceOrphans(spans, threshold, missing, m, s)
  {
    var children, roots := BuildForest(spans, missing);
    hide FlowOut, FlowIn, Balanced, RootExact, UserExact, SpansExact, SpansCounted, TraceCounted;
    var groups, sigs;
    ms, groups, sigs := SignSpans(spans, children, threshold, ms0, tc0, orphans0);
    SignedMeansSigning(spans, threshold, groups, sigs);
    hide Signed, SignedOk, Signing, KidsListed;
    var ms1 := ms;
    ms, tc := CountRoots(spans, roots, threshold, missing, sigs, ms1, tc0, orphans0);
    ghost var tc1 := tc;
    tc := CountTrace(spans, threshold, groups, sigs, missing, ms, tc, orphans0);
    TraceParts(spans, threshold, missing, ms0, ms1, ms, tc0, tc1, tc);
    assert forall c :: c in OrphansOf(spans, missing) ==> c.rpcId in sigs;
    orphans := SettleOrphans(ms, tc, OrphansOf(spans, missing), sigs, orphans0);
  }

  lemma TraceParts(spans: Trace, threshold: real, missing: bool, ms0: Counts, ms1: Counts, ms: Counts,
                   tc0: Transitions, tc1: Transitions, tc: Transitions)
    requires SpansCounted(ms0, ms1, AllSpans(spans), Signing(spans, threshold)) &&
             UserExact(ms1, ms, spans, threshold, missing)
    requires RootExact(tc0, tc1, spans, threshold, missing) && SpansExact(tc1, tc, spans, threshold, spans.Keys)
    ensures TraceCounted(spans, threshold, missing, ms0, tc0, ms, tc)
  {
    hide AllSpans, Signing, MatchCount, UserVariants, RootAdded, SpansAdded, Counter;
    forall key ensures Counter(tc, key) == Counter(tc0, key) + TraceTransitions(spans, threshold, missing, key) {
      assert Counter(tc1, key) == Counter(tc0, key) + RootAdded(spans, threshold, missing, key);
    }
    forall m, s ensures Counter(ms, m)[s] == Counter(ms0, m)[s] + TraceVariants(spans, threshold, missing, m, s) {
      assert Counter(ms1, m)[s] == Counter(ms0, m)[s] + MatchCount(AllSpans(spans), Signing(spans, threshold), m, s);
    }
  }

  /** The counts are those of the traces read so far. */
  ghost predicate ServiceCounted(traces: seq<Trace>, threshold: real, missing: bool, ms: Counts, tc: Transitions) {
    && (forall key :: Counter(tc, key) == ServiceTransitions(traces, threshold, missing, key))
    && (forall m, s :: Counter(ms, m)[s] == ServiceVariants(traces, threshold, missing, m, s))
  }

  lemma ServiceNext(traces: seq<Trace>, spans: Trace, threshold: real, missing: bool, ms0: Counts, tc0: Transitions,
                    ms: Counts, tc: Transitions)
    requires ServiceCounted(traces, threshold, missing, ms0, tc0)
    requires TraceCounted(spans, threshold, missing, ms0, tc0, ms, tc)
    ensures ServiceCounted(traces + [spans], threshold, missing, ms, tc)
  {
    hide TraceTransitions, TraceVariants;
    assert (traces + [spans])[..|traces|] == traces;
  }

  /** Of every variant, as many spans were dropped as have a missing parent in the traces read so far. */
  ghost predicate OrphansCounted(traces: seq<Trace>, threshold: real, missing: bool,
                                 orphans: multiset<(Name, Signature)>)
  {
    forall m, s :: orphans[(m, s)] == ServiceOrphans(traces, threshold, missing, m, s)
  }

  lemma OrphansNext(traces: seq<Trace>, spans: Trace, threshold: real, missing: bool,
                    orphans0: multiset<(Name, Signature)>, orphans: multiset<(Name, Signature)>)
    requires OrphansCounted(traces, threshold, missing, orphans0)
    requires forall m, s :: orphans[(m, s)] == orphans0[(m, s)] + TraceOrphans(spans, threshold, missing, m, s)
    ensures OrphansCounted(traces + [spans], threshold, missing, orphans)
  {
    hide TraceOrphans;
    assert (traces + [spans])[..|traces|] == traces;
  }

  lemma NoOrphans(traces: seq<Trace>, threshold: real, orphans: multiset<(Name, Signature)>)
    requires OrphansCounted(traces, threshold, true, orphans)
    ensures orphans == multiset{}
  {
    forall o: (Name, Signature) ensures orphans[o] == 0 {
      assert orphans[(o.0, o.1)] == ServiceOrphans(traces, threshold, true, o.0, o.1);
      PromotionKeepsAll(traces, threshold, o.0, o.1);
    }
  }

  /** A trace without spans counts for nothing. */
  lemma EmptyTrace(spans: Trace, threshold: real, missing: bool, ms: Counts, tc: Transitions)
    requires |spans| == 0
    ensures TraceCounted(spans, threshold, missing, ms, tc, ms, tc)
    ensures forall m, s :: TraceOrphans(spans, threshold, missing, m, s) == 0
  {
    assert spans == map[];
    assert RootsOf(spans, spans.Keys, missing) == {} && AllSpans(spans) == {} && OrphansOf(spans, missing) == {};
    forall m, s ensures MatchCount(AllSpans(spans), Signing(spans, threshold), m, s) == 0 {
      assert Matching(AllSpans(spans), Signing(spans, threshold), m, s) == {};
    }
  }

  /**
   Analyses all traces of a service. The counts are exactly those of the traces.
   For every variant and every slot of it, the callee variant counts add up to
   the variant's count; and every variant of a method other than USER is reached
   as often as it was counted, except for the spans dropped because their parent
   is missing.
   */
  method AnalyzeService(traces: seq<Trace>, threshold: real, missing: bool)
    returns (ms: Counts, tc: Transitions, ghost orphans: multiset<(Name, Signature)>)
    requires forall i :: 0 <= i < |traces| ==> TraceOk(traces[i])
    ensures ServiceCounted(traces, threshold, missing, ms, tc)
    ensures FlowOut(ms, tc) && FlowIn(ms, tc, orphans) && OrphansCounted(traces, threshold, missing, orphans)
    ensures missing ==> orphans == multiset{}
  {
    ms, tc, orphans := map[], map[], multiset{};
    assert forall m, s :: Inflow(tc, m, s) == 0;
    assert traces[..0] == [] && ServiceCounted([], threshold, missing, ms, tc) && traces[..|traces|] == traces;
    assert OrphansCounted([], threshold, missing, orphans);
    hide FlowOut, FlowIn, TraceOk, ServiceCounted, TraceCounted, OrphansCounted;
    for i := 0 to |traces|
      invariant ServiceCounted(traces[..i], threshold, missing, ms, tc)
      invariant FlowOut(ms, tc) && FlowIn(ms, tc, orphans) && OrphansCounted(traces[..i], threshold, missing, orphans)
    {
      ghost var ms0, tc0 := ms, tc;
      assert traces[..i + 1] == traces[..i] + [traces[i]];
      ghost var orphans0 := orphans;
      if |traces[i]| > 0 {
        ghost var o;
        ms, tc, o := AnalyzeTrace(traces[i], threshold, missing, ms, tc, orphans);
        orphans := o;
      } else {
        EmptyTrace(traces[i], threshold, missing, ms, tc);
      }
      ServiceNext(traces[..i], traces[i], threshold, missing, ms0, tc0, ms, tc);
      OrphansNext(traces[..i], traces[i], threshold, missing, orphans0, orphans);
    }
    if missing {
      NoOrphans(traces, threshold, orphans);
    }
  }

  // ----- reading the counts back

  /** Every callee signature counted in a slot is a variant of the slot's target, so it has a variant id. */
  lemma CalleeVariantKnown(ms: Counts, tc: Transitions, orphans: multiset<(Name, Signature)>, key: Slot, s: Signature)
    requires FlowIn(ms, tc, orphans) && s in Counter(tc, key)
    ensures s in Counter(ms, key.target)
  {
    SumPick(tc.Keys, tc, key.target, s, key);
    assert Inflow(tc, key.target, s) > 0;
  }

  datatype VariantId = Numbered(n: nat) | Unknown

  type VariantIds = map<Name, map<Signature, nat>>

  /** Every variant of every method has an id, and no two variants of a method share one. */
  ghost predicate IdsOk(ms: Counts, ids: VariantIds) {
    && ids.Keys == ms.Keys
    && (forall m :: m in ms ==> NumberedOnce(ms[m], ids[m]))
  }

  ghost predicate NumberedOnce(counter: multiset<Signature>, ids: map<Signature, nat>) {
    && (forall s :: s in ids <==> s in counter)
    && (forall s, t :: s in ids && t in ids && ids[s] == ids[t] ==> s == t)
  }

  /** Ids count from 1 in the order in which the variants are listed. */
  ghost predicate NumberedInOrder(counter: multiset<Signature>, ids: map<Signature, nat>) {
    forall s :: s in ids ==> ids[s] == 1 + |Earlier(counter, s)|
  }

  /** Smaller ids go to larger counts, and among equal counts to smaller signatures; they are 1, 2, and so on. */
  ghost predicate RankedByCount(counter: multiset<Signature>, ids: map<Signature, nat>) {
    && (forall s :: s in ids ==> 1 <= ids[s] <= |ids|)
    && (forall s, t :: s in ids && t in ids && s != t ==>
          (ids[s] < ids[t] <==> counter[s] > counter[t] || (counter[s] == counter[t] && SignatureLeq(s, t))))
  }

  /** Numbers the variants of every method from 1, frequent ones first and variants of equal count by signature. */
  method AssignVariantIds(ms: Counts) returns (ids: VariantIds)
    ensures IdsOk(ms, ids)
    ensures forall m :: m in ms ==> NumberedInOrder(ms[m], ids[m]) && RankedByCount(ms[m], ids[m])
  {
    ids := map[];
    var todo := ms.Keys;
    while todo != {}
      invariant todo <= ms.Keys && ids.Keys == ms.Keys - todo
      invariant forall m :: m in ids ==> WellNumbered(ms[m], ids[m])
      decreases todo
    {
      hide WellNumbered;
      var m :| m in todo;
      var numbers := NumberVariants(ms[m]);
      ids, todo := ids[m := numbers], todo - {m};
    }
  }

  /** The first of the remaining variants in the listing order. */
  method FirstListed(counter: multiset<Signature>, rest: set<Signature>) returns (first: Signature)
    requires rest != {}
    ensures first in rest && forall t :: t in rest && t != first ==> ListedBefore(counter, first, t)
  {
    ListedBeforeLaws(counter);
    hide ListedBefore;
    first :| first in rest;
    var todo := rest - {first};
    while todo != {}
      invariant first in rest && todo <= rest
      invariant forall t :: t in rest - todo && t != first ==> ListedBefore(counter, first, t)
      decreases todo
    {
      var s :| s in todo;
      todo := todo - {s};
      if ListedBefore(counter, s, first) {
        first := s;
      }
    }
  }

  ghost predicate WellNumbered(counter: multiset<Signature>, ids: map<Signature, nat>) {
    NumberedOnce(counter, ids) && NumberedInOrder(counter, ids) && RankedByCount(counter, ids)
  }

  method NumberVariants(counter: multiset<Signature>) returns (ids: map<Signature, nat>)
    ensures WellNumbered(counter, ids)
  {
    ids := map[];
    var rest := set s | s in counter;
    assert NumberedSoFar(counter, ids, rest);
    while rest != {}
      invariant NumberedSoFar(counter, ids, rest)
      decreases rest
    {
      var s := FirstListed(counter, rest);
      NumberNext(counter, ids, rest, s);
      ids, rest := ids[s := |ids| + 1], rest - {s};
    }
    ListingIsRanking(counter, ids);
  }

  /** The variants outside `rest` are numbered, and they come before those inside. */
  ghost predicate NumberedSoFar(counter: multiset<Signature>, ids: map<Signature, nat>, rest: set<Signature>) {
    && (forall s :: s in counter <==> s in ids || s in rest)
    && ids.Keys !! rest
    && (forall s, t :: s in ids && t in rest ==> ListedBefore(counter, s, t))
    && NumberedInOrder(counter, ids) && InListingOrder(counter, ids)
  }

  lemma NumberNext(counter: multiset<Signature>, ids: map<Signature, nat>, rest: set<Signature>, s: Signature)
    requires NumberedSoFar(counter, ids, rest) && s in rest
    requires forall t :: t in rest && t != s ==> ListedBefore(counter, s, t)
    ensures NumberedSoFar(counter, ids[s := |ids| + 1], rest - {s})
  {
    ListedBeforeLaws(counter);
    hide ListedBefore;
    forall t ensures t in Earlier(counter, s) <==> t in ids.Keys {
      assert t in counter <==> t in ids || t in rest;
      assert t in ids ==> t != s;
    }
    assert Earlier(counter, s) == ids.Keys && |ids.Keys| == |ids|;
    NextInOrder(counter, ids, s);
    hide InListingOrder, NumberedInOrder, Earlier;
  }

  lemma NextInOrder(counter: multiset<Signature>, ids: map<Signature, nat>, s: Signature)
    requires NumberedInOrder(counter, ids) && InListingOrder(counter, ids) && s !in ids
    requires |Earlier(counter, s)| == |ids| && forall t :: t in ids ==> ListedBefore(counter, t, s)
    ensures NumberedInOrder(counter, ids[s := |ids| + 1]) && InListingOrder(counter, ids[s := |ids| + 1])
  {
    ListedBeforeLaws(counter);
    assert !ListedBefore(counter, s, s);
    hide ListedBefore, Earlier;
    assert |ids[s := |ids| + 1]| == |ids| + 1;
  }

  ghost predicate InListingOrder(counter: multiset<Signature>, ids: map<Signature, nat>) {
    && (forall s :: s in ids ==> 1 <= ids[s] <= |ids|)
    && (forall s, t :: s in ids && t in ids ==> (ids[s] < ids[t] <==> ListedBefore(counter, s, t)))
  }

  lemma ListingIsRanking(counter: multiset<Signature>, ids: map<Signature, nat>)
    requires InListingOrder(counter, ids)
    ensures RankedByCount(counter, ids)
    ensures forall s, t :: s in ids && t in ids && ids[s] == ids[t] ==> s == t
  {
    ListedBeforeLaws(counter);
    hide SignatureLeq;
  }

  /** The sum of the values of a dictionary. */
  ghost function Sum(m: map<VariantId, real>): real {
    if m.Keys == {} then 0.0 else
      var k :| k in m.Keys;
      m[k] + Sum(m - {k})
  }

  lemma {:induction false} SumPickId(m: map<VariantId, real>, k: VariantId)
    requires k in m
    ensures Sum(m) == m[k] + Sum(m - {k})
  {
    var j :| j in m.Keys && Sum(m) == m[j] + Sum(m - {j});
    if j != k {
      SumPickId(m - {j}, k);
      SumPickId(m - {k}, j);
      assert m - {j} - {k} == m - {k} - {j};
    }
  }

  lemma SumAddId(m: map<VariantId, real>, k: VariantId, x: real)
    requires k !in m
    ensures Sum(m[k := x]) == Sum(m) + x
  {
    SumPickId(m[k := x], k);
    assert m[k := x] - {k} == m;
  }

  lemma QuotientSum(x: real, y: real, t: real)
    requires t > 0.0
    ensures x / t + y / t == (x + y) / t && t / t == 1.0
  {
    var p, q, r := x / t, y / t, (x + y) / t;
    assert p * t == x && q * t == y && r * t == x + y;
    assert (p + q - r) * t == 0.0;
  }

  /** The share that is left when `n` of the remaining `left` have been taken. */
  lemma ShareTaken(total: nat, left: nat, n: nat)
    requires n <= left <= total && total > 0
    ensures (total - left) as real / total as real + n as real / total as real ==
            (total - (left - n)) as real / total as real
    ensures (total - 0) as real / total as real == 1.0
  {
    QuotientSum((total - left) as real, n as real, total as real);
  }

  function Share(counter: multiset<Signature>, s: Signature): real
    requires |counter| > 0
  {
    counter[s] as real / |counter| as real
  }

  /** The count and the probability that are listed for a callee variant. */
  ghost predicate Listed(counter: multiset<Signature>, s: Signature, id: VariantId,
                         counts: map<VariantId, nat>, probabilities: map<VariantId, real>)
  {
    && Lookup(counts, id) == Some(counter[s])
    && |counter| > 0 && Lookup(probabilities, id) == Some(Share(counter, s))
  }

  /** The variants outside `rest` are listed, each under its own id, and nothing else is. */
  ghost predicate Distributed(counter: multiset<Signature>, numbers: map<Signature, nat>, rest: set<Signature>,
                              counts: map<VariantId, nat>, probabilities: map<VariantId, real>)
    requires forall s :: s in counter ==> s in numbers
  {
    && Unknown !in counts && probabilities.Keys == counts.Keys
    && (forall s :: s in counter && s !in rest ==> Listed(counter, s, Numbered(numbers[s]), counts, probabilities))
    && (forall id :: id in counts ==> exists s :: s in counter && s !in rest && id == Numbered(numbers[s]))
  }

  lemma DistributeNext(counter: multiset<Signature>, numbers: map<Signature, nat>, rest: set<Signature>,
                       counts: map<VariantId, nat>, probabilities: map<VariantId, real>, s: Signature)
    requires forall t :: t in counter ==> t in numbers
    requires forall t, u :: t in numbers && u in numbers && numbers[t] == numbers[u] ==> t == u
    requires Distributed(counter, numbers, rest, counts, probabilities) && s in rest && s in counter && |counter| > 0
    ensures Numbered(numbers[s]) !in probabilities
    ensures Distributed(counter, numbers, rest - {s}, counts[Numbered(numbers[s]) := counter[s]],
                        probabilities[Numbered(numbers[s]) := Share(counter, s)])
  {
    hide Share;
    var id, rest' := Numbered(numbers[s]), rest - {s};
    var counts', probabilities' := counts[id := counter[s]], probabilities[id := Share(counter, s)];
    forall t | t in counter && t !in rest' ensures Listed(counter, t, Numbered(numbers[t]), counts', probabilities') {
      assert t != s ==> Listed(counter, t, Numbered(numbers[t]), counts, probabilities);
    }
    forall other | other in counts' ensures exists t :: t in counter && t !in rest' && other == Numbered(numbers[t]) {
      if other in counts {
        var t :| t in counter && t !in rest && other == Numbered(numbers[t]);
      }
    }
    assert probabilities'.Keys == counts'.Keys;
  }

  /** The probabilities so far are the share of what was taken from the counter. */
  ghost predicate ShareSum(counter: multiset<Signature>, rest: set<Signature>, left: multiset<Signature>,
                           probabilities: map<VariantId, real>)
    requires |counter| > 0
  {
    && (forall s :: left[s] == if s in rest then counter[s] else 0)
    && |left| <= |counter| && Sum(probabilities) == (|counter| - |left|) as real / |counter| as real
  }

  lemma ShareNext(counter: multiset<Signature>, rest: set<Signature>, left: multiset<Signature>,
                  probabilities: map<VariantId, real>, s: Signature, id: VariantId)
    requires |counter| > 0 && ShareSum(counter, rest, left, probabilities)
    requires s in rest && s in counter && id !in probabilities
    ensures ShareSum(counter, rest - {s}, left[s := 0],
                     probabilities[id := Share(counter, s)])
  {
    hide Sum;
    ShareTaken(|counter|, |left|, left[s]);
    SumAddId(probabilities, id, Share(counter, s));
  }

  /**
   The callee counts of a slot by variant id, and their probabilities. Every
   callee variant has an id of its own, so none is reported as unknown and no
   count overwrites another; hence the probabilities sum up to one.
   */
  method VariantDistribution(ghost ms: Counts, ghost tc: Transitions, ghost orphans: multiset<(Name, Signature)>,
                             key: Slot, counter: multiset<Signature>, ids: VariantIds)
    returns (counts: map<VariantId, nat>, probabilities: map<VariantId, real>)
    requires FlowIn(ms, tc, orphans) && IdsOk(ms, ids) && counter == Counter(tc, key)
    ensures forall s :: s in counter ==> key.target in ids && s in ids[key.target]
    ensures Distributed(counter, GetOr(ids, key.target, map[]), {}, counts, probabilities)
    ensures counter != multiset{} ==> Sum(probabilities) == 1.0
  {
    CalleesNumbered(ms, tc, orphans, key, ids);
    hide FlowIn, IdsOk, Counter, Sum, Listed, Lookup, Distributed, ShareSum;
    counts, probabilities := map[], map[];
    var total := |counter|;
    ghost var numbers := GetOr(ids, key.target, map[]);
    NothingShared(counter, numbers);
    if total == 0 {
      return;
    }
    var rest := set s | s in counter;
    ghost var left := counter;
    while rest != {}
      invariant rest <= set s | s in counter
      invariant Distributed(counter, numbers, rest, counts, probabilities)
      invariant ShareSum(counter, rest, left, probabilities)
      decreases rest
    {
      var s :| s in rest;
      var id := if s in GetOr(ids, key.target, map[]) then Numbered(ids[key.target][s]) else Unknown;
      DistributeNext(counter, numbers, rest, counts, probabilities, s);
      ShareNext(counter, rest, left, probabilities, s, id);
      left := left[s := 0];
      counts, probabilities := counts[id := counter[s]], probabilities[id := Share(counter, s)];
      rest := rest - {s};
    }
    EverythingShared(counter, left, probabilities);
  }

  lemma CalleesNumbered(ms: Counts, tc: Transitions, orphans: multiset<(Name, Signature)>, key: Slot, ids: VariantIds)
    requires FlowIn(ms, tc, orphans) && IdsOk(ms, ids)
    ensures forall s :: s in Counter(tc, key) ==> key.target in ids && s in ids[key.target]
    ensures var numbers := GetOr(ids, key.target, map[]);
            forall s, t :: s in numbers && t in numbers && numbers[s] == numbers[t] ==> s == t
  {
    assert key.target in ids ==> NumberedOnce(ms[key.target], ids[key.target]);
    forall s | s in Counter(tc, key) ensures key.target in ids && s in ids[key.target] {
      CalleeVariantKnown(ms, tc, orphans, key, s);
    }
  }

  lemma NothingShared(counter: multiset<Signature>, numbers: map<Signature, nat>)
    requires forall s :: s in counter ==> s in numbers
    ensures Distributed(counter, numbers, (set s | s in counter), map[], map[])
    ensures |counter| == 0 ==> Distributed(counter, numbers, {}, map[], map[])
    ensures |counter| > 0 ==> ShareSum(counter, (set s | s in counter), counter, map[])
  {
    assert Sum(map[]) == 0.0;
    hide Sum;
    if |counter| == 0 {
      assert counter == multiset{};
    }
  }

  lemma EverythingShared(counter: multiset<Signature>, left: multiset<Signature>, probabilities: map<VariantId, real>)
    requires |counter| > 0 && ShareSum(counter, {}, left, probabilities)
    ensures Sum(probabilities) == 1.0
  {
    hide Sum;
    assert left == multiset{} && |left| == 0;
    ShareTaken(|counter|, |counter|, |counter|);
  }

  /** The payload enumerates the slots of a variant from its signature alone and finds each of them counted. */
  method PayloadSequence(m: Name, sig: Signature, ms: Counts, tc: Transitions)
    returns (payload: seq<seq<multiset<Signature>>>)
    requires FlowOut(ms, tc)
    ensures |payload| == |sig|
    ensures forall g :: 0 <= g < |sig| ==> |payload[g]| == |sig[g]|
    ensures forall g, i :: 0 <= g < |sig| && 0 <= i < |sig[g]| ==>
              payload[g][i] == Counter(tc, Slot(m, sig, g, sig[g][i], multiset(sig[g][..i])[sig[g][i]]))
    ensures forall g, i :: 0 <= g < |sig| && 0 <= i < |sig[g]| ==> |payload[g][i]| == Counter(ms, m)[sig]
  {
    payload := [];
    for g := 0 to |sig|
      invariant |payload| == g
      invariant forall h :: 0 <= h < g ==> StageCounted(m, sig, h, ms, tc, payload[h])
    {
      var stage := PayloadStage(m, sig, g, ms, tc);
      payload := payload + [stage];
    }
    forall g, i | 0 <= g < |sig| && 0 <= i < |sig[g]|
      ensures |payload[g]| == |sig[g]|
      ensures payload[g][i] == Counter(tc, Slot(m, sig, g, sig[g][i], multiset(sig[g][..i])[sig[g][i]]))
      ensures |payload[g][i]| == Counter(ms, m)[sig]
    {
      assert StageCounted(m, sig, g, ms, tc, payload[g]) && EntryCounted(m, sig, g, ms, tc, i, payload[g][i]);
    }
  }

  /** Entry `i` of a stage of the payload: the counter of its slot, counted as often as its variant. */
  ghost predicate EntryCounted(m: Name, sig: Signature, g: nat, ms: Counts, tc: Transitions, i: nat,
                               entry: multiset<Signature>)
    requires g < |sig| && i < |sig[g]|
  {
    && entry == Counter(tc, Slot(m, sig, g, sig[g][i], multiset(sig[g][..i])[sig[g][i]]))
    && |entry| == Counter(ms, m)[sig]
  }

  ghost predicate StageCounted(m: Name, sig: Signature, g: nat, ms: Counts, tc: Transitions,
                               stage: seq<multiset<Signature>>)
    requires g < |sig|
  {
    |stage| == |sig[g]| && forall i :: 0 <= i < |stage| ==> EntryCounted(m, sig, g, ms, tc, i, stage[i])
  }

  lemma SlotCounted(m: Name, sig: Signature, g: nat, ms: Counts, tc: Transitions, i: nat, slot: Slot)
    requires FlowOut(ms, tc) && g < |sig| && i < |sig[g]|
    requires slot == Slot(m, sig, g, sig[g][i], multiset(sig[g][..i])[sig[g][i]])
    ensures EntryCounted(m, sig, g, ms, tc, i, Counter(tc, slot))
  {
    var names := sig[g];
    assert names == names[..i] + [names[i]] + names[i + 1..];
    assert multiset(names) == multiset(names[..i]) + multiset([names[i]]) + multiset(names[i + 1..]);
    assert IsSlot(slot);
  }

  method PayloadStage(m: Name, sig: Signature, g: nat, ghost ms: Counts, tc: Transitions)
    returns (stage: seq<multiset<Signature>>)
    requires FlowOut(ms, tc) && g < |sig|
    ensures StageCounted(m, sig, g, ms, tc, stage)
  {
    stage := [];
    var seen: map<Name, nat> := map[];
    var names := sig[g];
    assert names[..0] == [];
    hide FlowOut, EntryCounted, Counter;
    for i := 0 to |names|
      invariant |stage| == i
      invariant Seen(names, i, seen)
      invariant forall k :: 0 <= k < i ==> EntryCounted(m, sig, g, ms, tc, k, stage[k])
    {
      var occurrence := GetOr(seen, names[i], 0);
      var slot := Slot(m, sig, g, names[i], occurrence);
      SeenNext(names, i, seen);
      SlotCounted(m, sig, g, ms, tc, i, slot);
      stage := stage + [Counter(tc, slot)];
      seen := seen[names[i] := occurrence + 1];
    }
  }
}
