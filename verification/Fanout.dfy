/**
 Grouping sibling spans into fan-out stages (`group_fanout` in
 `conditional_variants.py`). Times are exact reals.
 */
module Fanout {
  import opened Collections
  import opened Names
  import opened Graphs

  datatype Span = Span(rpcId: Name, methodName: Name, start: real, end: real)

  function Least(a: real, b: real): real {
    if a <= b then a else b
  }

  function Greatest(a: real, b: real): real {
    if a >= b then a else b
  }

  predicate SpansOverlap(a: Span, b: Span, threshold: real) {
    var start, end := Greatest(a.start, b.start), Least(a.end, b.end);
    var duration := Least(a.end - a.start, b.end - b.start);
    start < end && duration > 0.0 && (end - start) / duration >= threshold
  }

  /** The spans have a stretch in common that is as long as the given part of a length. */
  predicate InCommon(a: Span, b: Span, part: real, length: real) {
    var d := part * length;
    d <= a.end - a.start && d <= b.end - b.start && d <= a.end - b.start && d <= b.end - a.start
  }

  /** Spans overlap exactly when both last, they meet, and what they have in common is the given part of one of them. */
  lemma OverlapExactly(a: Span, b: Span, threshold: real)
    ensures SpansOverlap(a, b, threshold) <==>
            && a.start < a.end && b.start < b.end && a.start < b.end && b.start < a.end
            && (InCommon(a, b, threshold, a.end - a.start) || InCommon(a, b, threshold, b.end - b.start))
  {
    var common := Least(a.end, b.end) - Greatest(a.start, b.start);
    var da, db := a.end - a.start, b.end - b.start;
    CommonIs(a, b, threshold, da);
    CommonIs(a, b, threshold, db);
    hide InCommon;
    if da > 0.0 && db > 0.0 && common > 0.0 {
      ShareOfShorter(common, da, db, threshold);
    }
  }

  lemma CommonIs(a: Span, b: Span, part: real, length: real)
    ensures InCommon(a, b, part, length) <==> part * length <= Least(a.end, b.end) - Greatest(a.start, b.start)
  {
  }

  lemma ShareOfShorter(x: real, d: real, e: real, t: real)
    requires x > 0.0 && d > 0.0 && e > 0.0
    ensures x / Least(d, e) >= t <==> x >= t * d || x >= t * e
  {
    QuotientAtLeast(x, Least(d, e), t);
    if x >= t * d {
      ShorterShare(x, d, Least(d, e), t);
    }
    if x >= t * e {
      ShorterShare(x, e, Least(d, e), t);
    }
  }

  lemma QuotientAtLeast(x: real, d: real, t: real)
    requires d > 0.0
    ensures x / d >= t <==> x >= t * d
  {
    var q := x / d;
    assert q * d == x;
    if q >= t {
      assert (q - t) * d >= 0.0;
    } else {
      assert (t - q) * d > 0.0;
    }
  }

  lemma ShorterShare(x: real, d: real, less: real, t: real)
    requires 0.0 < less <= d && x > 0.0 && x >= t * d
    ensures x >= t * less
  {
    if t > 0.0 {
      assert t * (d - less) >= 0.0;
    } else {
      assert -t * less >= 0.0;
    }
  }

  /** A span inside another overlaps it, however small its part of the other is. */
  lemma InsideOverlaps(a: Span, b: Span, threshold: real)
    requires b.start <= a.start < a.end <= b.end && threshold <= 1.0
    ensures SpansOverlap(a, b, threshold)
  {
    OverlapExactly(a, b, threshold);
    InsideInCommon(a, b, threshold, a.end - a.start);
    hide InCommon;
  }

  lemma InsideInCommon(a: Span, b: Span, part: real, length: real)
    requires b.start <= a.start <= a.end <= b.end && part <= 1.0 && 0.0 <= length <= a.end - a.start
    ensures InCommon(a, b, part, length)
  {
    PartOfWhole(part, length);
  }

  lemma PartOfWhole(part: real, length: real)
    requires part <= 1.0 && length >= 0.0
    ensures part * length <= length
  {
    var rest := 1.0 - part;
    assert rest * length >= 0.0;
    assert rest * length == length - part * length;
  }

  // ----- sorting

  datatype Key = ByTime | ByMethod

  predicate NameBefore(a: Span, b: Span) {
    if a.methodName == b.methodName then Leq(a.rpcId, b.rpcId) else Leq(a.methodName, b.methodName)
  }

  /** Lexicographic by (start, end, method, rpc id), or by (method, rpc id). */
  predicate Before(key: Key, a: Span, b: Span) {
    if key == ByMethod then NameBefore(a, b)
    else if a.start != b.start then a.start < b.start
    else if a.end != b.end then a.end < b.end
    else NameBefore(a, b)
  }

  lemma NameBeforeLaws(a: Span, b: Span, c: Span)
    ensures NameBefore(a, b) || NameBefore(b, a)
    ensures NameBefore(a, b) && NameBefore(b, a) ==> a.rpcId == b.rpcId
    ensures NameBefore(a, b) && NameBefore(b, c) ==> NameBefore(a, c)
  {
    LeqIsOrder();
    hide Leq;
    assert Leq(a.methodName, b.methodName) || Leq(b.methodName, a.methodName);
    assert Leq(a.rpcId, b.rpcId) || Leq(b.rpcId, a.rpcId);
  }

  lemma BeforeLaws(key: Key, a: Span, b: Span, c: Span)
    ensures Before(key, a, b) || Before(key, b, a)
    ensures Before(key, a, b) && Before(key, b, a) ==> a.rpcId == b.rpcId
    ensures Before(key, a, b) && Before(key, b, c) ==> Before(key, a, c)
  {
    NameBeforeLaws(a, b, c);
  }

  ghost predicate IsSorted(key: Key, s: seq<Span>) {
    forall i, j :: 0 <= i < j < |s| ==> Before(key, s[i], s[j])
  }

  /** No two spans share an rpc id. */
  ghost predicate DistinctIds(s: multiset<Span>) {
    && (forall a :: a in s ==> s[a] == 1)
    && (forall a, b :: a in s && b in s && a.rpcId == b.rpcId ==> a == b)
  }

  function Insert(key: Key, x: Span, s: seq<Span>): seq<Span> {
    if s == [] || Before(key, x, s[0]) then [x] + s else [s[0]] + Insert(key, x, s[1..])
  }

  function Sorted(key: Key, s: seq<Span>): seq<Span> {
    if s == [] then [] else Insert(key, s[0], Sorted(key, s[1..]))
  }

  lemma SortedCons(key: Key, x: Span, s: seq<Span>)
    requires IsSorted(key, s) && forall j :: 0 <= j < |s| ==> Before(key, x, s[j])
    ensures IsSorted(key, [x] + s)
  {
    hide Before;
  }

  lemma {:induction false} InsertSorts(key: Key, x: Span, s: seq<Span>)
    requires IsSorted(key, s)
    ensures IsSorted(key, Insert(key, x, s)) && multiset(Insert(key, x, s)) == multiset{x} + multiset(s)
  {
    hide Before;
    if s == [] {
    } else if Before(key, x, s[0]) {
      forall j | 0 <= j < |s| ensures Before(key, x, s[j]) {
        BeforeLaws(key, x, s[0], s[j]);
      }
      SortedCons(key, x, s);
    } else {
      InsertSorts(key, x, s[1..]);
      BeforeLaws(key, x, s[0], s[0]);
      var t := Insert(key, x, s[1..]);
      assert s == [s[0]] + s[1..];
      forall j | 0 <= j < |t| ensures Before(key, s[0], t[j]) {
        assert t[j] in multiset(t);
        assert t[j] == x || t[j] in s[1..];
      }
      assert Insert(key, x, s) == [s[0]] + t;
      SortedCons(key, s[0], t);
      hide IsSorted, Insert;
    }
  }

  lemma {:induction false} SortedIsSorted(key: Key, s: seq<Span>)
    ensures IsSorted(key, Sorted(key, s)) && multiset(Sorted(key, s)) == multiset(s)
  {
    if s != [] {
      SortedIsSorted(key, s[1..]);
      InsertSorts(key, s[0], Sorted(key, s[1..]));
      assert s == [s[0]] + s[1..];
    }
  }

  /** Start order: earlier start first, then earlier end, then method and rpc id in dictionary order. */
  lemma StartOrder(s: seq<Span>, i: nat, j: nat)
    requires i < j < |Sorted(ByTime, s)|
    ensures var a, b := Sorted(ByTime, s)[i], Sorted(ByTime, s)[j];
            && a.start <= b.start
            && (a.start == b.start ==> a.end <= b.end)
            && (a.start == b.start && a.end == b.end ==> Leq(a.methodName, b.methodName))
            && (a.start == b.start && a.end == b.end && a.methodName == b.methodName ==> Leq(a.rpcId, b.rpcId))
  {
    SortedIsSorted(ByTime, s);
    assert Before(ByTime, Sorted(ByTime, s)[i], Sorted(ByTime, s)[j]);
    LeqIsOrder();
    hide Leq, Sorted;
  }

  /** Within a group the members stand by method and then by rpc id. */
  lemma MemberOrder(s: seq<Span>, i: nat, j: nat)
    requires i < j < |Sorted(ByMethod, s)|
    ensures var a, b := Sorted(ByMethod, s)[i], Sorted(ByMethod, s)[j];
            && Leq(a.methodName, b.methodName)
            && (a.methodName == b.methodName ==> Leq(a.rpcId, b.rpcId))
  {
    SortedIsSorted(ByMethod, s);
    assert Before(ByMethod, Sorted(ByMethod, s)[i], Sorted(ByMethod, s)[j]);
    LeqIsOrder();
    hide Leq, Sorted;
  }

  /** There is only one way to sort spans with distinct rpc ids. */
  lemma {:induction false} SortedUnique(key: Key, s: seq<Span>, t: seq<Span>)
    requires IsSorted(key, s) && IsSorted(key, t) && multiset(s) == multiset(t) && DistinctIds(multiset(s))
    ensures s == t
  {
    if s == [] {
      assert |t| == |multiset(t)| == |multiset(s)|;
    } else {
      HeadsAgree(key, s, t);
      TailFacts(key, s);
      TailFacts(key, t);
      hide IsSorted, DistinctIds;
      SortedUnique(key, s[1..], t[1..]);
    }
  }

  lemma TailFacts(key: Key, s: seq<Span>)
    requires s != [] && IsSorted(key, s) && DistinctIds(multiset(s))
    ensures s == [s[0]] + s[1..] && multiset(s[1..]) == multiset(s) - multiset{s[0]}
    ensures IsSorted(key, s[1..]) && DistinctIds(multiset(s[1..]))
  {
    hide Before;
    assert s == [s[0]] + s[1..];
    assert multiset(s) == multiset{s[0]} + multiset(s[1..]);
  }

  lemma HeadsAgree(key: Key, s: seq<Span>, t: seq<Span>)
    requires IsSorted(key, s) && IsSorted(key, t) && multiset(s) == multiset(t) && DistinctIds(multiset(s)) && s != []
    ensures t != [] && s[0] == t[0]
  {
    hide Before;
    assert s[0] in multiset(t);
    assert t[0] in multiset(s);
    BeforeLaws(key, s[0], t[0], t[0]);
    BeforeLaws(key, t[0], s[0], s[0]);
  }

  // ----- grouping

  predicate OverlapsAny(x: Span, group: seq<Span>, threshold: real) {
    exists i :: 0 <= i < |group| && SpansOverlap(x, group[i], threshold)
  }

  /** The groups that result from going on with `rest` while `current` is open, in start order. */
  function Scan(current: seq<Span>, rest: seq<Span>, threshold: real): (r: seq<seq<Span>>)
    ensures |r| > 0
    decreases |rest|
  {
    if rest == [] then [current]
    else if OverlapsAny(rest[0], current, threshold) then Scan(current + [rest[0]], rest[1..], threshold)
    else [current] + Scan([rest[0]], rest[1..], threshold)
  }

  function SortGroups(groups: seq<seq<Span>>): (r: seq<seq<Span>>)
    ensures |r| == |groups| && forall i :: 0 <= i < |r| ==> r[i] == Sorted(ByMethod, groups[i])
  {
    seq(|groups|, i requires 0 <= i < |groups| => Sorted(ByMethod, groups[i]))
  }

  /** The groups before their members are reordered by name. */
  function RawGroups(children: seq<Span>, threshold: real): seq<seq<Span>> {
    if children == [] then [] else
      var s := Sorted(ByTime, children);
      if s == [] then [] else Scan([s[0]], s[1..], threshold)
  }

  function Groups(children: seq<Span>, threshold: real): seq<seq<Span>> {
    SortGroups(RawGroups(children, threshold))
  }

  function Members(groups: seq<seq<Span>>): multiset<Span> {
    if groups == [] then multiset{} else multiset(groups[0]) + Members(groups[1..])
  }

  /** The loop over the children in start order. */
  method GroupFanout(children: seq<Span>, threshold: real) returns (groups: seq<seq<Span>>)
    ensures groups == Groups(children, threshold)
  {
    if children == [] {
      return [];
    }
    var s := Sorted(ByTime, children);
    SortedIsSorted(ByTime, children);
    assert |s| == |multiset(s)| == |children|;
    hide Sorted, Scan, OverlapsAny;
    var raw: seq<seq<Span>>, current := [], [s[0]];
    for i := 1 to |s|
      invariant raw + Scan(current, s[i..], threshold) == Scan([s[0]], s[1..], threshold)
    {
      ScanNext(raw, current, s, i, threshold);
      if OverlapsAny(s[i], current, threshold) {
        current := current + [s[i]];
      } else {
        raw := raw + [current];
        current := [s[i]];
      }
    }
    ScanEnds(current, s[|s|..], threshold);
    raw := raw + [current];
    groups := SortGroups(raw);
  }

  lemma ScanNext(raw: seq<seq<Span>>, current: seq<Span>, s: seq<Span>, i: nat, threshold: real)
    requires i < |s|
    ensures raw + Scan(current, s[i..], threshold) ==
            if OverlapsAny(s[i], current, threshold) then raw + Scan(current + [s[i]], s[i + 1..], threshold)
            else raw + [current] + Scan([s[i]], s[i + 1..], threshold)
  {
    hide OverlapsAny;
    assert s[i..][0] == s[i] && s[i..][1..] == s[i + 1..];
  }

  lemma ScanEnds(current: seq<Span>, rest: seq<Span>, threshold: real)
    requires rest == []
    ensures Scan(current, rest, threshold) == [current]
  {
  }

  lemma {:induction false} ScanMembers(current: seq<Span>, rest: seq<Span>, threshold: real)
    ensures Members(Scan(current, rest, threshold)) == multiset(current) + multiset(rest)
    decreases |rest|
  {
    var r := Scan(current, rest, threshold);
    if rest == [] {
      assert r[1..] == [];
    } else {
      assert rest == [rest[0]] + rest[1..];
      if OverlapsAny(rest[0], current, threshold) {
        ScanMembers(current + [rest[0]], rest[1..], threshold);
      } else {
        ScanMembers([rest[0]], rest[1..], threshold);
        assert r[0] == current && r[1..] == Scan([rest[0]], rest[1..], threshold);
      }
    }
  }

  lemma {:induction false} SortGroupsMembers(groups: seq<seq<Span>>)
    ensures Members(SortGroups(groups)) == Members(groups)
  {
    if groups != [] {
      assert SortGroups(groups)[1..] == SortGroups(groups[1..]);
      SortedIsSorted(ByMethod, groups[0]);
      SortGroupsMembers(groups[1..]);
    }
  }

  /** The groups partition the children. */
  lemma GroupsPartition(children: seq<Span>, threshold: real)
    ensures Members(Groups(children, threshold)) == multiset(children)
  {
    SortGroupsMembers(RawGroups(children, threshold));
    if children != [] {
      SortedIsSorted(ByTime, children);
      var s := Sorted(ByTime, children);
      assert |s| == |multiset(s)| == |children|;
      assert s == [s[0]] + s[1..];
      ScanMembers([s[0]], s[1..], threshold);
    }
  }

  /** The order in which the children are listed does not matter. */
  lemma GroupsIgnoreOrder(s: seq<Span>, t: seq<Span>, threshold: real)
    requires multiset(s) == multiset(t) && DistinctIds(multiset(s))
    ensures Groups(s, threshold) == Groups(t, threshold)
  {
    assert |s| == |multiset(s)| == |multiset(t)| == |t|;
    SortedIsSorted(ByTime, s);
    SortedIsSorted(ByTime, t);
    SortedUnique(ByTime, Sorted(ByTime, s), Sorted(ByTime, t));
  }

  /** In start order every later member of a group overlaps an earlier one. */
  ghost predicate Chained(group: seq<Span>, threshold: real) {
    |group| > 0 && forall i :: 0 < i < |group| ==> OverlapsAny(group[i], group[..i], threshold)
  }

  lemma {:induction false} ScanChained(current: seq<Span>, rest: seq<Span>, threshold: real)
    requires Chained(current, threshold)
    ensures forall g ::
              0 <= g < |Scan(current, rest, threshold)| ==> Chained(Scan(current, rest, threshold)[g], threshold)
    decreases |rest|
  {
    if rest != [] {
      if OverlapsAny(rest[0], current, threshold) {
        var more := current + [rest[0]];
        assert forall i :: 0 <= i <= |current| ==> more[..i] == current[..i];
        ScanChained(more, rest[1..], threshold);
      } else {
        ScanChained([rest[0]], rest[1..], threshold);
      }
    }
  }

  lemma GroupsChained(children: seq<Span>, threshold: real)
    ensures forall g ::
              0 <= g < |RawGroups(children, threshold)| ==> Chained(RawGroups(children, threshold)[g], threshold)
  {
    if children != [] && Sorted(ByTime, children) != [] {
      var s := Sorted(ByTime, children);
      ScanChained([s[0]], s[1..], threshold);
    }
  }

  // ----- the three laws that determine the groups

  /** The first member of a later group overlaps no member of the group before. */
  ghost predicate Broken(groups: seq<seq<Span>>, threshold: real) {
    forall g {:trigger groups[g]} ::
      0 < g < |groups| ==> |groups[g]| > 0 && !OverlapsAny(groups[g][0], groups[g - 1], threshold)
  }

  ghost predicate AllChained(groups: seq<seq<Span>>, threshold: real) {
    forall g :: 0 <= g < |groups| ==> Chained(groups[g], threshold)
  }

  ghost function Concat(groups: seq<seq<Span>>): seq<Span> {
    if groups == [] then [] else groups[0] + Concat(groups[1..])
  }

  lemma {:induction false} ScanLaws(current: seq<Span>, rest: seq<Span>, threshold: real)
    requires current != []
    ensures Concat(Scan(current, rest, threshold)) == current + rest && current <= Scan(current, rest, threshold)[0]
    ensures Broken(Scan(current, rest, threshold), threshold)
    decreases |rest|
  {
    hide OverlapsAny;
    if rest == [] {
      assert [current][1..] == [];
    } else {
      assert rest == [rest[0]] + rest[1..];
      if OverlapsAny(rest[0], current, threshold) {
        ScanLaws(current + [rest[0]], rest[1..], threshold);
        assert current + [rest[0]] + rest[1..] == current + rest;
      } else {
        var later := Scan([rest[0]], rest[1..], threshold);
        ScanLaws([rest[0]], rest[1..], threshold);
        assert ([current] + later)[1..] == later && later[0][0] == rest[0];
      }
    }
  }

  /** In start order the groups list the children. */
  lemma GroupsInOrder(children: seq<Span>, threshold: real)
    ensures Concat(RawGroups(children, threshold)) == Sorted(ByTime, children)
  {
    if children != [] && Sorted(ByTime, children) != [] {
      var s := Sorted(ByTime, children);
      ScanLaws([s[0]], s[1..], threshold);
      assert [s[0]] + s[1..] == s;
    }
  }

  /** A group ends only where a child overlaps none of it. */
  lemma GroupsBroken(children: seq<Span>, threshold: real)
    ensures Broken(RawGroups(children, threshold), threshold)
  {
    if children != [] && Sorted(ByTime, children) != [] {
      var s := Sorted(ByTime, children);
      ScanLaws([s[0]], s[1..], threshold);
    }
  }

  /** There is only one way to cut a list into chained groups that are broken off from each other. */
  lemma {:induction false} GroupsDetermined(g: seq<seq<Span>>, h: seq<seq<Span>>, threshold: real)
    requires AllChained(g, threshold) && AllChained(h, threshold) && Broken(g, threshold) && Broken(h, threshold)
    requires Concat(g) == Concat(h)
    ensures g == h
  {
    if g != [] && h != [] {
      FirstGroupNotShorter(g, h, threshold);
      FirstGroupNotShorter(h, g, threshold);
      assert g[0] == Concat(g)[..|g[0]|] && h[0] == Concat(h)[..|h[0]|];
      assert Concat(g[1..]) == Concat(g)[|g[0]|..] && Concat(h[1..]) == Concat(h)[|h[0]|..];
      BrokenTail(g, threshold);
      BrokenTail(h, threshold);
      GroupsDetermined(g[1..], h[1..], threshold);
      assert g == [g[0]] + g[1..] && h == [h[0]] + h[1..];
    }
  }

  lemma BrokenTail(g: seq<seq<Span>>, threshold: real)
    requires g != [] && Broken(g, threshold) && AllChained(g, threshold)
    ensures Broken(g[1..], threshold) && AllChained(g[1..], threshold)
  {
    hide OverlapsAny, Chained;
    var tail := g[1..];
    forall i | 0 < i < |tail| ensures |tail[i]| > 0 && !OverlapsAny(tail[i][0], tail[i - 1], threshold) {
      assert tail[i] == g[i + 1] && tail[i - 1] == g[i];
    }
  }

  lemma FirstGroupChains(h: seq<seq<Span>>, threshold: real, k: nat)
    requires h != [] && AllChained(h, threshold) && 0 < k < |h[0]|
    ensures k < |Concat(h)| && OverlapsAny(Concat(h)[k], Concat(h)[..k], threshold)
  {
    assert Chained(h[0], threshold);
    hide OverlapsAny;
    assert OverlapsAny(h[0][k], h[0][..k], threshold);
    assert Concat(h)[..k] == h[0][..k];
  }

  lemma FirstGroupBreaks(g: seq<seq<Span>>, threshold: real)
    requires g != [] && AllChained(g, threshold) && Broken(g, threshold)
    ensures 0 < |g[0]| <= |Concat(g)|
    ensures |g[0]| < |Concat(g)| ==> !OverlapsAny(Concat(g)[|g[0]|], Concat(g)[..|g[0]|], threshold)
  {
    assert Chained(g[0], threshold);
    hide OverlapsAny;
    assert Concat(g)[..|g[0]|] == g[0];
    if |g| > 1 {
      assert !OverlapsAny(g[1][0], g[0], threshold) && |g[1]| > 0;
      assert g[1..][0] == g[1] && Concat(g)[|g[0]|] == g[1][0];
    } else {
      assert g[1..] == [];
    }
  }

  /** A longer first group would go on past a break. */
  lemma FirstGroupNotShorter(g: seq<seq<Span>>, h: seq<seq<Span>>, threshold: real)
    requires g != [] && h != [] && AllChained(g, threshold) && AllChained(h, threshold) && Broken(g, threshold) &&
             Concat(g) == Concat(h)
    ensures |g[0]| >= |h[0]|
  {
    FirstGroupBreaks(g, threshold);
    hide OverlapsAny, AllChained, Broken;
    if |g[0]| < |h[0]| {
      FirstGroupChains(h, threshold, |g[0]|);
    }
  }

  // ----- which children stay together

  ghost predicate Together(groups: seq<seq<Span>>, a: Span, b: Span) {
    exists g :: 0 <= g < |groups| && a in groups[g] && b in groups[g]
  }

  lemma TogetherLater(first: seq<Span>, later: seq<seq<Span>>, a: Span, b: Span)
    requires Together(later, a, b)
    ensures Together([first] + later, a, b)
  {
    var g :| 0 <= g < |later| && a in later[g] && b in later[g];
    assert ([first] + later)[g + 1] == later[g];
  }

  lemma {:induction false} ScanKeepsAdjacent(current: seq<Span>, rest: seq<Span>, threshold: real, i: nat)
    requires current != [] && |current| - 1 <= i < |current| + |rest| - 1
    requires SpansOverlap((current + rest)[i + 1], (current + rest)[i], threshold)
    ensures Together(Scan(current, rest, threshold), (current + rest)[i], (current + rest)[i + 1])
    decreases |rest|
  {
    hide SpansOverlap, Together;
    var all, more, later := current + rest, current + [rest[0]], Scan([rest[0]], rest[1..], threshold);
    assert more + rest[1..] == all;
    if i == |current| - 1 {
      assert OverlapsAny(rest[0], current, threshold);
      FirstGroupTogether(more, rest[1..], threshold, i, i + 1);
    } else if OverlapsAny(rest[0], current, threshold) {
      ScanKeepsAdjacent(more, rest[1..], threshold, i);
    } else {
      var tail, k := [rest[0]] + rest[1..], i - |current|;
      assert tail[k] == all[i] && tail[k + 1] == all[i + 1];
      ScanKeepsAdjacent([rest[0]], rest[1..], threshold, k);
      TogetherLater(current, later, all[i], all[i + 1]);
    }
  }

  lemma FirstGroupTogether(current: seq<Span>, rest: seq<Span>, threshold: real, i: nat, j: nat)
    requires i < |current| && j < |current|
    ensures Together(Scan(current, rest, threshold), current[i], current[j])
  {
    ScanLaws(current, rest, threshold);
    var first := Scan(current, rest, threshold)[0];
    assert first[i] == current[i] && first[j] == current[j];
  }

  lemma TogetherSorted(children: seq<Span>, threshold: real, a: Span, b: Span)
    ensures Together(Groups(children, threshold), a, b) <==> Together(RawGroups(children, threshold), a, b)
  {
    var raw, groups := RawGroups(children, threshold), Groups(children, threshold);
    forall g | 0 <= g < |raw| ensures (a in groups[g] <==> a in raw[g]) && (b in groups[g] <==> b in raw[g]) {
      SortedHasSame(raw[g], a);
      SortedHasSame(raw[g], b);
    }
  }

  /** Children next to each other in start order share a group if they overlap. */
  lemma NeighboursTogether(children: seq<Span>, threshold: real, i: nat)
    requires i + 1 < |Sorted(ByTime, children)|
    requires SpansOverlap(Sorted(ByTime, children)[i + 1], Sorted(ByTime, children)[i], threshold)
    ensures Together(Groups(children, threshold), Sorted(ByTime, children)[i], Sorted(ByTime, children)[i + 1])
  {
    var s := Sorted(ByTime, children);
    assert [s[0]] + s[1..] == s && children != [];
    ScanKeepsAdjacent([s[0]], s[1..], threshold, i);
    TogetherSorted(children, threshold, s[i], s[i + 1]);
  }

  /** A child inside its neighbour in start order shares its group at every threshold up to one. */
  lemma InsideTogether(children: seq<Span>, threshold: real, i: nat)
    requires i + 1 < |Sorted(ByTime, children)| && threshold <= 1.0
    requires var a, b := Sorted(ByTime, children)[i + 1], Sorted(ByTime, children)[i];
             b.start <= a.start < a.end <= b.end || a.start <= b.start < b.end <= a.end
    ensures Together(Groups(children, threshold), Sorted(ByTime, children)[i], Sorted(ByTime, children)[i + 1])
  {
    var a, b := Sorted(ByTime, children)[i + 1], Sorted(ByTime, children)[i];
    if b.start <= a.start < a.end <= b.end {
      InsideOverlaps(a, b, threshold);
    } else {
      InsideOverlaps(b, a, threshold);
      OverlapCommutes(a, b, threshold);
    }
    hide Sorted, SpansOverlap;
    NeighboursTogether(children, threshold, i);
  }

  /** A lower threshold only joins groups. */
  lemma {:induction false} ScanJoins(current: seq<Span>, more: seq<Span>, rest: seq<Span>, t: real, lower: real,
                                     a: Span, b: Span)
    requires lower <= t && (forall x :: x in current ==> x in more) && current != [] && more != []
    requires Together(Scan(current, rest, t), a, b)
    ensures Together(Scan(more, rest, lower), a, b)
    decreases |rest|
  {
    ScanLaws(more, rest, lower);
    var coarse := Scan(more, rest, lower);
    if rest != [] {
      hide Together, SpansOverlap;
      OverlapsMore(rest[0], current, more, t, lower);
      if OverlapsAny(rest[0], current, t) {
        ScanJoins(current + [rest[0]], more + [rest[0]], rest[1..], t, lower, a, b);
      } else {
        TogetherSplit(current, Scan([rest[0]], rest[1..], t), a, b);
        if a in current && b in current {
          InFirstGroup(more, rest, lower, a, b);
        } else if OverlapsAny(rest[0], more, lower) {
          ScanJoins([rest[0]], more + [rest[0]], rest[1..], t, lower, a, b);
        } else {
          ScanJoins([rest[0]], [rest[0]], rest[1..], t, lower, a, b);
          TogetherLater(more, Scan([rest[0]], rest[1..], lower), a, b);
        }
      }
    }
  }

  lemma InFirstGroup(more: seq<Span>, rest: seq<Span>, threshold: real, a: Span, b: Span)
    requires a in more && b in more
    ensures Together(Scan(more, rest, threshold), a, b)
  {
    var i :| 0 <= i < |more| && more[i] == a;
    var j :| 0 <= j < |more| && more[j] == b;
    FirstGroupTogether(more, rest, threshold, i, j);
  }

  lemma TogetherSplit(first: seq<Span>, later: seq<seq<Span>>, a: Span, b: Span)
    requires Together([first] + later, a, b)
    ensures (a in first && b in first) || Together(later, a, b)
  {
    var groups := [first] + later;
    var g :| 0 <= g < |groups| && a in groups[g] && b in groups[g];
    if g > 0 {
      assert later[g - 1] == groups[g];
    }
  }

  lemma OverlapsMore(x: Span, group: seq<Span>, more: seq<Span>, t: real, lower: real)
    requires lower <= t && forall y :: y in group ==> y in more
    ensures OverlapsAny(x, group, t) ==> OverlapsAny(x, more, lower)
  {
    if i :| 0 <= i < |group| && SpansOverlap(x, group[i], t) {
      var y := group[i];
      assert SpansOverlap(x, y, lower);
      assert y in more;
      var j :| 0 <= j < |more| && more[j] == y;
    }
  }

  /** Children that share a group still share one when the threshold is lowered. */
  lemma ThresholdJoins(children: seq<Span>, t: real, lower: real, a: Span, b: Span)
    requires lower <= t && Together(Groups(children, t), a, b)
    ensures Together(Groups(children, lower), a, b)
  {
    TogetherSorted(children, t, a, b);
    TogetherSorted(children, lower, a, b);
    var s := Sorted(ByTime, children);
    if children != [] && s != [] {
      ScanJoins([s[0]], [s[0]], s[1..], t, lower, a, b);
    }
  }

  // ----- threshold zero: groups are connected components

  ghost predicate Positive(s: seq<Span>) {
    forall i :: 0 <= i < |s| ==> s[i].start < s[i].end
  }

  /** Everything in `a` has ended when anything in `b` starts. */
  ghost predicate EndsBefore(a: seq<Span>, b: seq<Span>) {
    forall i, j :: 0 <= i < |a| && 0 <= j < |b| ==> a[i].end <= b[j].start
  }

  ghost predicate StartsBefore(a: seq<Span>, b: seq<Span>) {
    forall i, j :: 0 <= i < |a| && 0 <= j < |b| ==> a[i].start <= b[j].start
  }

  /** Earlier groups end no later than later ones start. */
  ghost predicate Separated(groups: seq<seq<Span>>) {
    forall g, h :: 0 <= g < h < |groups| ==> EndsBefore(groups[g], groups[h])
  }

  lemma ZeroThreshold(a: Span, b: Span)
    requires a.start < a.end && b.start < b.end
    ensures SpansOverlap(a, b, 0.0) <==> a.start < b.end && b.start < a.end
  {
    var start, end := Greatest(a.start, b.start), Least(a.end, b.end);
    var duration := Least(a.end - a.start, b.end - b.start);
    if start < end {
      assert (end - start) / duration >= 0.0;
    }
  }

  /** A span that opens a new group starts after the current one has ended. */
  lemma GapBefore(x: Span, group: seq<Span>)
    requires Positive(group) && x.start < x.end && StartsBefore(group, [x])
    requires !OverlapsAny(x, group, 0.0)
    ensures EndsBefore(group, [x])
  {
    forall i | 0 <= i < |group| ensures group[i].end <= x.start {
      ZeroThreshold(x, group[i]);
      assert !SpansOverlap(x, group[i], 0.0);
      assert group[i].start <= [x][0].start;
    }
  }

  /** Elements of later groups come from the spans that were still to be scanned. */
  lemma {:induction false} ScanTail(current: seq<Span>, rest: seq<Span>, g: nat, x: Span)
    requires g < |Scan(current, rest, 0.0)| && x in Scan(current, rest, 0.0)[g]
    ensures x in current || x in rest
    decreases |rest|
  {
    if rest != [] {
      if OverlapsAny(rest[0], current, 0.0) {
        ScanTail(current + [rest[0]], rest[1..], g, x);
      } else if g > 0 {
        ScanTail([rest[0]], rest[1..], g - 1, x);
      }
    }
  }

  lemma {:induction false} ScanSeparates(current: seq<Span>, rest: seq<Span>)
    requires Positive(current) && Positive(rest) && IsSorted(ByTime, rest) && StartsBefore(current, rest)
    ensures Separated(Scan(current, rest, 0.0))
    decreases |rest|
  {
    if rest != [] {
      var x, tail := rest[0], rest[1..];
      assert forall j :: 0 <= j < |tail| ==> tail[j] == rest[j + 1] && Before(ByTime, rest[0], rest[j + 1]);
      if OverlapsAny(x, current, 0.0) {
        forall i, j | 0 <= i < |current + [x]| && 0 <= j < |tail| ensures (current + [x])[i].start <= tail[j].start {
          assert i < |current| ==> current[i].start <= rest[j + 1].start;
        }
        ScanSeparates(current + [x], tail);
        assert Scan(current, rest, 0.0) == Scan(current + [x], tail, 0.0);
      } else {
        ScanSeparates([x], tail);
        GapBefore(x, current);
        var r: seq<seq<Span>> := Scan([x], tail, 0.0);
        forall h | 0 <= h < |r| ensures EndsBefore(current, r[h]) {
          forall i, j | 0 <= i < |current| && 0 <= j < |r[h]| ensures current[i].end <= r[h][j].start {
            ScanTail([x], tail, h, r[h][j]);
            assert current[i].end <= [x][0].start;
          }
        }
        var all := Scan(current, rest, 0.0);
        assert all == [current] + r;
        forall g, h | 0 <= g < h < |all| ensures EndsBefore(all[g], all[h]) {
          var l := h - 1;
          assert all[h] == r[l];
          if g == 0 {
            assert EndsBefore(current, r[l]);
          } else {
            var k := g - 1;
            assert all[g] == r[k] && EndsBefore(r[k], r[l]);
          }
        }
      }
    }
  }

  ghost function OverlapEdges(children: seq<Span>): set<(Span, Span)> {
    set i, j | 0 <= i < |children| && 0 <= j < |children| && SpansOverlap(children[i], children[j], 0.0)
      :: (children[i], children[j])
  }

  /** A chain of overlaps leads from `a` to `b`. */
  ghost predicate Linked(edges: set<(Span, Span)>, a: Span, b: Span) {
    exists p: seq<Span> :: |p| > 0 && p[0] == a && p[|p| - 1] == b && IsWalk(edges, p)
  }

  lemma LinkedStep(edges: set<(Span, Span)>, a: Span, b: Span, c: Span)
    requires Linked(edges, a, b) && (b, c) in edges
    ensures Linked(edges, a, c)
  {
    var p: seq<Span> :| |p| > 0 && p[0] == a && p[|p| - 1] == b && IsWalk(edges, p);
    var q := p + [c];
    assert forall i :: 0 <= i < |p| - 1 ==> (p[i], p[i + 1]) in edges;
    assert IsWalk(edges, q) && q[0] == a && q[|q| - 1] == c;
  }

  lemma LinkedFromTo(edges: set<(Span, Span)>, a: Span, b: Span, p: seq<Span>)
    requires |p| > 0 && p[0] == b && IsWalk(edges, p) && Linked(edges, a, b)
    ensures Linked(edges, a, p[|p| - 1])
    decreases |p|
  {
    if |p| > 1 {
      assert (p[0], p[0 + 1]) in edges;
      LinkedStep(edges, a, b, p[1]);
      WalkTail(edges, p);
      LinkedFromTo(edges, a, p[1], p[1..]);
    }
  }

  lemma LinkedTransitive(edges: set<(Span, Span)>, a: Span, b: Span, c: Span)
    requires Linked(edges, a, b) && Linked(edges, b, c)
    ensures Linked(edges, a, c)
  {
    var p: seq<Span> :| |p| > 0 && p[0] == b && p[|p| - 1] == c && IsWalk(edges, p);
    LinkedFromTo(edges, a, b, p);
  }

  lemma OverlapSymmetric(children: seq<Span>)
    ensures Symmetric(OverlapEdges(children))
  {
    forall a, b | SpansOverlap(a, b, 0.0) ensures SpansOverlap(b, a, 0.0) {
      OverlapCommutes(a, b, 0.0);
    }
    hide SpansOverlap;
  }

  ghost predicate Symmetric(edges: set<(Span, Span)>) {
    forall a, b :: (a, b) in edges ==> (b, a) in edges
  }

  lemma LinkedReverse(edges: set<(Span, Span)>, a: Span, b: Span)
    requires Symmetric(edges) && Linked(edges, a, b)
    ensures Linked(edges, b, a)
  {
    var p: seq<Span> :| |p| > 0 && p[0] == a && p[|p| - 1] == b && IsWalk(edges, p);
    var q := Reversed(p);
    forall i | 0 <= i < |q| - 1 ensures (q[i], q[i + 1]) in edges {
      var k := |p| - 2 - i;
      assert (p[k], p[k + 1]) in edges;
    }
    assert q[0] == b && q[|q| - 1] == a && IsWalk(edges, q);
  }

  lemma OverlapCommutes(a: Span, b: Span, threshold: real)
    ensures SpansOverlap(a, b, threshold) <==> SpansOverlap(b, a, threshold)
  {
    var start, end := Greatest(a.start, b.start), Least(a.end, b.end);
    assert start == Greatest(b.start, a.start) && end == Least(b.end, a.end);
    assert Least(a.end - a.start, b.end - b.start) == Least(b.end - b.start, a.end - a.start);
    hide Greatest, Least;
  }

  /** Within a chained group everything is linked to the first member. */
  lemma {:induction false} ChainedIsLinked(children: seq<Span>, group: seq<Span>, i: nat)
    requires Chained(group, 0.0) && i < |group|
    requires forall k :: 0 <= k < |group| ==> group[k] in children
    ensures Linked(OverlapEdges(children), group[0], group[i])
  {
    var edges := OverlapEdges(children);
    if i == 0 {
      assert IsWalk(edges, [group[0]]);
      assert [group[0]][0] == group[0] == [group[0]][|[group[0]]| - 1];
    } else {
      var k :| 0 <= k < i && SpansOverlap(group[i], group[..i][k], 0.0);
      OverlapCommutes(group[i], group[k], 0.0);
      hide SpansOverlap;
      ChainedIsLinked(children, group, k);
      assert group[k] in children && group[i] in children;
      assert (group[k], group[i]) in edges;
      LinkedStep(edges, group[0], group[k], group[i]);
    }
  }

  /** Groups that are separated in time share no overlap. */
  lemma OverlapSameGroup(groups: seq<seq<Span>>, g: nat, h: nat, a: Span, b: Span)
    requires Separated(groups)
    requires g < |groups| && h < |groups| && a in groups[g] && b in groups[h]
    requires a.start < a.end && b.start < b.end
    ensures SpansOverlap(a, b, 0.0) ==> g == h
    ensures g < h ==> a.end <= b.start
  {
    ZeroThreshold(a, b);
    assert g < h ==> EndsBefore(groups[g], groups[h]);
    assert h < g ==> EndsBefore(groups[h], groups[g]);
  }

  /** No overlap leads out of a group. */
  lemma WalkStaysInGroup(children: seq<Span>, groups: seq<seq<Span>>, g: nat, p: seq<Span>)
    requires Positive(children)
    requires Separated(groups)
    requires forall x :: x in children ==> exists k :: 0 <= k < |groups| && x in groups[k]
    requires g < |groups| && |p| > 0 && p[0] in groups[g] && IsWalk(OverlapEdges(children), p)
    ensures p[|p| - 1] in groups[g]
    decreases |p|
  {
    if |p| > 1 {
      var edges := OverlapEdges(children);
      assert (p[0], p[0 + 1]) in edges;
      var a, b := p[0], p[1];
      assert a in children && b in children && SpansOverlap(a, b, 0.0);
      var h :| 0 <= h < |groups| && b in groups[h];
      OverlapSameGroup(groups, g, h, a, b);
      WalkTail(edges, p);
      WalkStaysInGroup(children, groups, g, p[1..]);
    }
  }

  lemma {:induction false} InSomeGroup(groups: seq<seq<Span>>, x: Span)
    ensures x in Members(groups) <==> exists k :: 0 <= k < |groups| && x in groups[k]
  {
    if groups != [] {
      InSomeGroup(groups[1..], x);
      if x in Members(groups) && x !in groups[0] {
        var k :| 0 <= k < |groups| - 1 && x in groups[1..][k];
        assert x in groups[k + 1];
      }
      if k :| 0 <= k < |groups| && x in groups[k] {
        assert k > 0 ==> x in groups[1..][k - 1];
      }
    }
  }

  lemma SameGroupLinked(children: seq<Span>, group: seq<Span>, a: Span, b: Span)
    requires Chained(group, 0.0) && a in group && b in group
    requires forall k :: 0 <= k < |group| ==> group[k] in children
    ensures Linked(OverlapEdges(children), a, b)
  {
    var edges := OverlapEdges(children);
    var i :| 0 <= i < |group| && group[i] == a;
    var j :| 0 <= j < |group| && group[j] == b;
    ChainedIsLinked(children, group, i);
    ChainedIsLinked(children, group, j);
    OverlapSymmetric(children);
    hide Linked, OverlapEdges, SpansOverlap, Chained;
    LinkedReverse(edges, group[0], a);
    LinkedTransitive(edges, a, group[0], b);
  }

  lemma LinkedSameGroup(children: seq<Span>, groups: seq<seq<Span>>, g: nat, h: nat, a: Span, b: Span)
    requires Positive(children)
    requires Separated(groups)
    requires forall x :: x in children <==> exists k :: 0 <= k < |groups| && x in groups[k]
    requires g < |groups| && h < |groups| && a in groups[g] && b in groups[h]
    requires Linked(OverlapEdges(children), a, b)
    ensures g == h
  {
    var p: seq<Span> :| |p| > 0 && p[0] == a && p[|p| - 1] == b && IsWalk(OverlapEdges(children), p);
    WalkStaysInGroup(children, groups, g, p);
    assert b in children;
    ZeroThreshold(b, b);
    OverlapSameGroup(groups, g, h, b, b);
  }

  lemma RawGroupsAreComponents(children: seq<Span>, g: nat, h: nat, a: Span, b: Span)
    requires Positive(children)
    requires g < |RawGroups(children, 0.0)| && a in RawGroups(children, 0.0)[g]
    requires h < |RawGroups(children, 0.0)| && b in RawGroups(children, 0.0)[h]
    ensures g == h <==> Linked(OverlapEdges(children), a, b)
    ensures g < h ==> a.end <= b.start
  {
    var groups := RawGroups(children, 0.0);
    RawFacts(children);
    GroupsChained(children, 0.0);
    assert a in children && b in children;
    OverlapSameGroup(groups, g, h, a, b);
    if g == h {
      forall k | 0 <= k < |groups[g]| ensures groups[g][k] in children {
        assert groups[g][k] in groups[g];
      }
      SameGroupLinked(children, groups[g], a, b);
    }
    if Linked(OverlapEdges(children), a, b) {
      LinkedSameGroup(children, groups, g, h, a, b);
    }
  }

  /** At threshold zero, with positive durations, two children share a group exactly when overlaps link them. */
  lemma GroupsAreComponents(children: seq<Span>, g: nat, h: nat, a: Span, b: Span)
    requires Positive(children)
    requires g < |Groups(children, 0.0)| && a in Groups(children, 0.0)[g]
    requires h < |Groups(children, 0.0)| && b in Groups(children, 0.0)[h]
    ensures g == h <==> Linked(OverlapEdges(children), a, b)
    ensures g < h ==> a.end <= b.start
  {
    var raw := RawGroups(children, 0.0);
    SortedHasSame(raw[g], a);
    SortedHasSame(raw[h], b);
    RawGroupsAreComponents(children, g, h, a, b);
  }

  lemma SortedHasSame(s: seq<Span>, x: Span)
    ensures x in Sorted(ByMethod, s) <==> x in s
  {
    SortedIsSorted(ByMethod, s);
    assert x in Sorted(ByMethod, s) <==> x in multiset(Sorted(ByMethod, s));
    assert x in s <==> x in multiset(s);
  }

  lemma RawFacts(children: seq<Span>)
    requires Positive(children)
    ensures var groups := RawGroups(children, 0.0);
            && (Separated(groups))
            && (forall x :: x in children <==> exists k :: 0 <= k < |groups| && x in groups[k])
  {
    RawSeparated(children);
    RawMembers(children);
  }

  lemma SortedPositive(children: seq<Span>)
    requires Positive(children)
    ensures var s := Sorted(ByTime, children);
            |s| == |children| && IsSorted(ByTime, s) && Positive(s) && multiset(s) == multiset(children)
  {
    SortedIsSorted(ByTime, children);
    var s := Sorted(ByTime, children);
    assert |s| == |multiset(s)| == |children|;
    forall i | 0 <= i < |s| ensures s[i].start < s[i].end {
      assert s[i] in multiset(s);
      assert s[i] in children;
    }
  }

  lemma RawSeparated(children: seq<Span>)
    requires Positive(children)
    ensures Separated(RawGroups(children, 0.0))
  {
    if children != [] {
      SortedPositive(children);
      hide Sorted, Scan;
      var s := Sorted(ByTime, children);
      assert s == [s[0]] + s[1..];
      ScanSeparates([s[0]], s[1..]);
    }
  }

  lemma RawMembers(children: seq<Span>)
    requires Positive(children)
    ensures forall x :: x in children <==> exists k ::
              0 <= k < |RawGroups(children, 0.0)| && x in RawGroups(children, 0.0)[k]
  {
    var groups := RawGroups(children, 0.0);
    SortedPositive(children);
    if children != [] {
      var s := Sorted(ByTime, children);
      assert s == [s[0]] + s[1..];
      ScanMembers([s[0]], s[1..], 0.0);
    }
    assert Members(groups) == multiset(children);
    hide *;
    forall x ensures x in children <==> exists k :: 0 <= k < |groups| && x in groups[k] {
      InSomeGroup(groups, x);
      assert x in children <==> x in multiset(children);
    }
  }
}
