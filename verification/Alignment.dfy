/**
 Pairwise alignment of two call sequences (`_align_sequence_pair` in
 `quickcheck.py`): a dynamic program over gap alignments with a traceback. A
 stage is a set of child names; ratios are exact reals.
 */
module Alignment {
  import opened Collections
  import opened Names

  type Stage = set<Name>
  type Aligned = seq<Option<Stage>>

  const GAP_PENALTY: real := -0.5

  /** Jaccard similarity, 0 for two empty stages. */
  function MatchScore(a: Stage, b: Stage): real {
    if |a + b| > 0 then |a * b| as real / |a + b| as real else 0.0
  }

  // ----- what an alignment is, independently of how it is found

  function Ungapped(a: Aligned): seq<Stage> {
    if a == [] then []
    else (if a[0].Some? then [a[0].value] else []) + Ungapped(a[1..])
  }

  /** Two columns-wise equally long sequences that spell `s` and `t`, never with a gap on both sides. */
  ghost predicate IsAlignment(a: Aligned, b: Aligned, s: seq<Stage>, t: seq<Stage>) {
    && |a| == |b|
    && (forall i :: 0 <= i < |a| ==> a[i].Some? || b[i].Some?)
    && Ungapped(a) == s && Ungapped(b) == t
  }

  function ColumnScore(x: Option<Stage>, y: Option<Stage>): real {
    if x.Some? && y.Some? then MatchScore(x.value, y.value) else GAP_PENALTY
  }

  /** Sum of the matches minus one half for every gap. */
  function Score(a: Aligned, b: Aligned): real
    requires |a| == |b|
  {
    if a == [] then 0.0 else ColumnScore(a[0], b[0]) + Score(a[1..], b[1..])
  }

  // ----- what the score measures

  /**
   The score of a match is the share of the children of both stages that are in both: 1 for
   equal stages, 0 for disjoint ones.
   */
  lemma MatchScoreLaws(a: Stage, b: Stage)
    ensures MatchScore(a, b) * (|a| + |b| - |a * b|) as real == |a * b| as real
    ensures MatchScore(a, b) == MatchScore(b, a)
    ensures 0.0 <= MatchScore(a, b) <= 1.0
    ensures MatchScore(a, b) == 1.0 <==> a == b && a != {}
    ensures MatchScore(a, b) == 0.0 <==> a * b == {}
  {
    var common, all := |a * b|, |a + b|;
    assert a + b == b + a && a * b == b * a;
    CardinalityUnion(a, b);
    if all > 0 {
      ShareLaws(common, all);
    }
  }

  lemma CardinalityUnion(a: Stage, b: Stage)
    ensures |a + b| == |a| + |b| - |a * b| && |a * b| <= |a + b|
    ensures |a * b| == 0 <==> a * b == {}
    ensures |a * b| == |a + b| <==> a == b
    ensures |a + b| == 0 <==> a == {} && b == {}
  {
    assert a + b == a + (b - a) && |b| == |b - a| + |a * b| by {
      assert b == (b - a) + a * b;
    }
    var rest := (a + b) - a * b;
    assert a + b == a * b + rest;
    if rest == {} {
      forall x ensures x in a <==> x in b {
        assert x in a + b <==> x in a * b || x in rest;
      }
    }
    if a == b {
      assert a * b == a + b;
    }
  }

  lemma ShareLaws(n: nat, all: nat)
    requires n <= all && all > 0
    ensures var r := n as real / all as real;
            r * all as real == n as real && 0.0 <= r <= 1.0 && (r == 1.0 <==> n == all) && (r == 0.0 <==> n == 0)
  {
  }

  /** The matches of an alignment, without the cost of its gaps. */
  ghost function MatchSum(a: Aligned, b: Aligned): real
    requires |a| == |b|
  {
    if a == [] then 0.0
    else MatchSum(a[1..], b[1..]) + if a[0].Some? && b[0].Some? then MatchScore(a[0].value, b[0].value) else 0.0
  }

  /** Every gap costs one half, there are as many gaps as columns exceed the stages, and a pair earns at most 1. */
  lemma {:induction false} GapsCostHalf(a: Aligned, b: Aligned, s: seq<Stage>, t: seq<Stage>)
    requires IsAlignment(a, b, s, t)
    ensures 2 * |a| >= |s| + |t| >= |a|
    ensures Score(a, b) == MatchSum(a, b) - (2 * |a| - |s| - |t|) as real / 2.0
    ensures MatchSum(a, b) <= (|s| + |t| - |a|) as real
  {
    if a != [] {
      var s', t' := Ungapped(a[1..]), Ungapped(b[1..]);
      GapsCostHalf(a[1..], b[1..], s', t');
      if a[0].Some? && b[0].Some? {
        MatchScoreLaws(a[0].value, b[0].value);
      }
      hide MatchScore;
    }
  }

  function Whole(s: seq<Stage>): (a: Aligned)
    ensures |a| == |s|
  {
    seq(|s|, i requires 0 <= i < |s| => Some(s[i]))
  }

  lemma {:induction false} WholeAligned(s: seq<Stage>)
    requires {} !in s
    ensures IsAlignment(Whole(s), Whole(s), s, s) && Score(Whole(s), Whole(s)) == |s| as real
  {
    if s != [] {
      WholeAligned(s[1..]);
      MatchScoreLaws(s[0], s[0]);
      hide MatchScore;
      assert Whole(s)[1..] == Whole(s[1..]);
    }
  }

  lemma {:induction false} UngappedShort(a: Aligned)
    ensures |Ungapped(a)| <= |a|
    ensures |Ungapped(a)| == |a| ==> a == Whole(Ungapped(a))
  {
    if a != [] {
      UngappedShort(a[1..]);
      assert a == [a[0]] + a[1..];
    }
  }

  /** The best alignment of a sequence with itself is the one without gaps, if no stage is empty. */
  lemma BestWithItself(a: Aligned, b: Aligned, s: seq<Stage>)
    requires {} !in s && IsAlignment(a, b, s, s)
    requires Score(a, b) >= Score(Whole(s), Whole(s))
    ensures a == Whole(s) && b == Whole(s)
  {
    WholeAligned(s);
    GapsCostHalf(a, b, s, s);
    UngappedShort(a);
    UngappedShort(b);
  }

  // ----- splitting an alignment at its last column

  lemma {:induction false} UngappedSnoc(a: Aligned, x: Option<Stage>)
    ensures Ungapped(a + [x]) == Ungapped(a) + if x.Some? then [x.value] else []
  {
    if a != [] {
      assert (a + [x])[1..] == a[1..] + [x];
      UngappedSnoc(a[1..], x);
    }
  }

  lemma {:induction false} ScoreSnoc(a: Aligned, b: Aligned, x: Option<Stage>, y: Option<Stage>)
    requires |a| == |b|
    ensures Score(a + [x], b + [y]) == Score(a, b) + ColumnScore(x, y)
  {
    if a != [] {
      assert (a + [x])[1..] == a[1..] + [x] && (b + [y])[1..] == b[1..] + [y];
      ScoreSnoc(a[1..], b[1..], x, y);
    }
  }

  // ----- the recurrence of the table

  datatype Direction = Unset | Diag | Up | Left

  /** The best way to end an alignment of `s[..i]` and `t[..j]`, with ties broken as in the source. */
  function Best(s: seq<Stage>, t: seq<Stage>, i: nat, j: nat): (r: (real, Direction))
    requires i <= |s| && j <= |t|
    decreases i + j
  {
    if i == 0 && j == 0 then (0.0, Unset)
    else if j == 0 then (i as real * GAP_PENALTY, Up)
    else if i == 0 then (j as real * GAP_PENALTY, Left)
    else
      var match' := Best(s, t, i - 1, j - 1).0 + MatchScore(s[i - 1], t[j - 1]);
      var delete := Best(s, t, i - 1, j).0 + GAP_PENALTY;
      var insert := Best(s, t, i, j - 1).0 + GAP_PENALTY;
      if match' >= delete && match' >= insert then (match', Diag)
      else if delete >= insert then (delete, Up)
      else (insert, Left)
  }

  /** The direction stored in a cell leads to the cell from which its score was obtained. */
  lemma BestStep(s: seq<Stage>, t: seq<Stage>, i: nat, j: nat)
    requires i <= |s| && j <= |t|
    ensures Best(s, t, i, j).1 == Unset <==> i == 0 && j == 0
    ensures i == 0 && j == 0 ==> Best(s, t, i, j).0 == 0.0
    ensures Best(s, t, i, j).1 == Diag ==>
              i > 0 && j > 0 && Best(s, t, i, j).0 == Best(s, t, i - 1, j - 1).0 + MatchScore(s[i - 1], t[j - 1])
    ensures Best(s, t, i, j).1 == Up ==> i > 0 && Best(s, t, i, j).0 == Best(s, t, i - 1, j).0 + GAP_PENALTY
    ensures Best(s, t, i, j).1 == Left ==> j > 0 && Best(s, t, i, j).0 == Best(s, t, i, j - 1).0 + GAP_PENALTY
  {
  }

  /** No alignment of the prefixes scores more than the table entry. */
  lemma {:induction false} BestIsUpperBound(a: Aligned, b: Aligned, s: seq<Stage>, t: seq<Stage>, i: nat, j: nat)
    requires i <= |s| && j <= |t| && IsAlignment(a, b, s[..i], t[..j])
    ensures Score(a, b) <= Best(s, t, i, j).0
    decreases |a|
  {
    if a != [] {
      var n := |a| - 1;
      var x, y := a[n], b[n];
      var a', b' := a[..n], b[..n];
      assert a == a' + [x] && b == b' + [y];
      UngappedSnoc(a', x);
      UngappedSnoc(b', y);
      ScoreSnoc(a', b', x, y);
      var i' := if x.Some? then i - 1 else i;
      var j' := if y.Some? then j - 1 else j;
      LastOf(Ungapped(a'), x, s, i);
      LastOf(Ungapped(b'), y, t, j);
      ColumnAtMost(s, t, i, j, x, y);
      hide Best, Score, ColumnScore;
      BestIsUpperBound(a', b', s, t, i', j');
    }
  }

  /** No way to end an alignment gains more than the recurrence. */
  lemma ColumnAtMost(s: seq<Stage>, t: seq<Stage>, i: nat, j: nat, x: Option<Stage>, y: Option<Stage>)
    requires i <= |s| && j <= |t| && (x.Some? || y.Some?)
    requires (x.Some? ==> i > 0 && x.value == s[i - 1]) && (y.Some? ==> j > 0 && y.value == t[j - 1])
    ensures Best(s, t, if x.Some? then i - 1 else i, if y.Some? then j - 1 else j).0 + ColumnScore(x, y) <=
            Best(s, t, i, j).0
  {
    hide MatchScore;
  }

  lemma LastOf(front: seq<Stage>, x: Option<Stage>, s: seq<Stage>, i: nat)
    requires i <= |s| && front + (if x.Some? then [x.value] else []) == s[..i]
    ensures x.Some? ==> i > 0 && x.value == s[i - 1] && front == s[..i - 1]
    ensures x.None? ==> front == s[..i]
  {
    if x.Some? {
      assert s[..i][i - 1] == x.value;
      assert front == s[..i][..i - 1];
    }
  }

  // ----- the algorithm

  lemma InnerCell(s: seq<Stage>, t: seq<Stage>, i: nat, j: nat)
    requires 0 < i <= |s| && 0 < j <= |t|
    ensures var match' := Best(s, t, i - 1, j - 1).0 + MatchScore(s[i - 1], t[j - 1]);
            var delete := Best(s, t, i - 1, j).0 + GAP_PENALTY;
            var insert := Best(s, t, i, j - 1).0 + GAP_PENALTY;
            Best(s, t, i, j) ==
            if match' >= delete && match' >= insert then (match', Diag)
            else if delete >= insert then (delete, Up)
            else (insert, Left)
  {
  }

  /** Row 0 and column 0: nothing but gaps. */
  method FillBorders(s: seq<Stage>, t: seq<Stage>, dp: array2<real>, traceback: array2<Direction>)
    requires dp.Length0 == traceback.Length0 == |s| + 1 && dp.Length1 == traceback.Length1 == |t| + 1
    requires dp[0, 0] == 0.0 && traceback[0, 0] == Unset
    modifies dp, traceback
    ensures forall i, j :: 0 <= i <= |s| && 0 <= j <= |t| && (i == 0 || j == 0) ==>
              dp[i, j] == Best(s, t, i, j).0 && traceback[i, j] == Best(s, t, i, j).1
  {
    var n, m := |s|, |t|;
    for i := 1 to n + 1
      invariant dp[0, 0] == 0.0 && traceback[0, 0] == Unset
      invariant forall k :: 0 < k < i ==> dp[k, 0] == k as real * GAP_PENALTY && traceback[k, 0] == Up
    {
      dp[i, 0] := i as real * GAP_PENALTY;
      traceback[i, 0] := Up;
    }
    for j := 1 to m + 1
      invariant dp[0, 0] == 0.0 && traceback[0, 0] == Unset
      invariant forall k :: 0 < k <= n ==> dp[k, 0] == k as real * GAP_PENALTY && traceback[k, 0] == Up
      invariant forall l :: 0 < l < j ==> dp[0, l] == l as real * GAP_PENALTY && traceback[0, l] == Left
    {
      dp[0, j] := j as real * GAP_PENALTY;
      traceback[0, j] := Left;
    }
  }

  /** Fills the score and traceback tables row by row. */
  method FillTables(s: seq<Stage>, t: seq<Stage>) returns (dp: array2<real>, traceback: array2<Direction>)
    ensures fresh(dp) && fresh(traceback)
    ensures dp.Length0 == traceback.Length0 == |s| + 1 && dp.Length1 == traceback.Length1 == |t| + 1
    ensures forall i, j :: 0 <= i <= |s| && 0 <= j <= |t| ==> dp[i, j] == Best(s, t, i, j).0
    ensures forall i, j :: 0 <= i <= |s| && 0 <= j <= |t| ==> traceback[i, j] == Best(s, t, i, j).1
  {
    hide Best, MatchScore;
    var n, m := |s|, |t|;
    dp := new real[n + 1, m + 1]((i, j) => 0.0);
    traceback := new Direction[n + 1, m + 1]((i, j) => Unset);
    FillBorders(s, t, dp, traceback);
    for i := 1 to n + 1
      invariant forall k, l :: 0 <= k <= n && 0 <= l <= m && (k < i || l == 0) ==>
                  dp[k, l] == Best(s, t, k, l).0 && traceback[k, l] == Best(s, t, k, l).1
    {
      for j := 1 to m + 1
        invariant forall k, l :: 0 <= k <= n && 0 <= l <= m && (k < i || l == 0 || (k == i && l < j)) ==>
                    dp[k, l] == Best(s, t, k, l).0 && traceback[k, l] == Best(s, t, k, l).1
      {
        InnerCell(s, t, i, j);
        var match' := dp[i - 1, j - 1] + MatchScore(s[i - 1], t[j - 1]);
        var delete := dp[i - 1, j] + GAP_PENALTY;
        var insert := dp[i, j - 1] + GAP_PENALTY;
        if match' >= delete && match' >= insert {
          dp[i, j] := match';
          traceback[i, j] := Diag;
        } else if delete >= insert {
          dp[i, j] := delete;
          traceback[i, j] := Up;
        } else {
          dp[i, j] := insert;
          traceback[i, j] := Left;
        }
      }
    }
  }

  lemma AlignmentCons(a: Aligned, b: Aligned, x: Option<Stage>, y: Option<Stage>, s: seq<Stage>, t: seq<Stage>)
    requires IsAlignment(a, b, s, t) && (x.Some? || y.Some?)
    ensures IsAlignment([x] + a, [y] + b,
                        (if x.Some? then [x.value] else []) + s, (if y.Some? then [y.value] else []) + t)
    ensures Score([x] + a, [y] + b) == ColumnScore(x, y) + Score(a, b)
  {
    assert ([x] + a)[1..] == a && ([y] + b)[1..] == b;
  }

  /** `(a, b)` aligns the suffixes from `i` and `j`, and completes an alignment with the best score. */
  ghost predicate Traced(s: seq<Stage>, t: seq<Stage>, i: nat, j: nat, a: Aligned, b: Aligned) {
    && i <= |s| && j <= |t|
    && IsAlignment(a, b, s[i..], t[j..])
    && Score(a, b) + Best(s, t, i, j).0 == Best(s, t, |s|, |t|).0
  }

  /** Following the stored direction extends the traced suffix by one column. */
  lemma TraceStep(s: seq<Stage>, t: seq<Stage>, i: nat, j: nat, a: Aligned, b: Aligned)
    requires Traced(s, t, i, j, a, b) && (i > 0 || j > 0)
    ensures match Best(s, t, i, j).1
      case Diag => i > 0 && j > 0 && Traced(s, t, i - 1, j - 1, [Some(s[i - 1])] + a, [Some(t[j - 1])] + b)
      case Up => i > 0 && Traced(s, t, i - 1, j, [Some(s[i - 1])] + a, [None] + b)
      case Left => j > 0 && Traced(s, t, i, j - 1, [None] + a, [Some(t[j - 1])] + b)
      case Unset => false
  {
    hide Score, MatchScore, Ungapped;
    BestStep(s, t, i, j);
    var d := Best(s, t, i, j).1;
    var x := if d == Left then None else Some(s[i - 1]);
    var y := if d == Up then None else Some(t[j - 1]);
    assert x.Some? ==> s[i - 1..] == [s[i - 1]] + s[i..];
    assert y.Some? ==> t[j - 1..] == [t[j - 1]] + t[j..];
    assert [] + s[i..] == s[i..] && [] + t[j..] == t[j..];
    hide Best, IsAlignment, Score, MatchScore;
    AlignmentCons(a, b, x, y, s[i..], t[j..]);
  }

  /** Follows the traceback table from the last cell and reverses what it collected. */
  method FollowTraceback(s: seq<Stage>, t: seq<Stage>, traceback: array2<Direction>) returns (a: Aligned, b: Aligned)
    requires traceback.Length0 == |s| + 1 && traceback.Length1 == |t| + 1
    requires forall i, j :: 0 <= i <= |s| && 0 <= j <= |t| ==> traceback[i, j] == Best(s, t, i, j).1
    ensures IsAlignment(a, b, s, t)
    ensures Score(a, b) == Best(s, t, |s|, |t|).0
  {
    var revA: Aligned, revB: Aligned := [], [];
    var i, j := |s|, |t|;
    assert s[i..] == [] && t[j..] == [];
    while i > 0 || j > 0
      invariant 0 <= i <= |s| && 0 <= j <= |t|
      invariant Traced(s, t, i, j, Reversed(revA), Reversed(revB))
      decreases i + j
    {
      hide Traced, Best, Reversed;
      TraceStep(s, t, i, j, Reversed(revA), Reversed(revB));
      var direction := traceback[i, j];
      if direction == Diag {
        ReversedSnoc(revA, Some(s[i - 1]));
        ReversedSnoc(revB, Some(t[j - 1]));
        revA, revB := revA + [Some(s[i - 1])], revB + [Some(t[j - 1])];
        i, j := i - 1, j - 1;
      } else if direction == Up {
        ReversedSnoc(revA, Some(s[i - 1]));
        ReversedSnoc(revB, None);
        revA, revB := revA + [Some(s[i - 1])], revB + [None];
        i := i - 1;
      } else {
        ReversedSnoc(revA, None);
        ReversedSnoc(revB, Some(t[j - 1]));
        revA, revB := revA + [None], revB + [Some(t[j - 1])];
        j := j - 1;
      }
    }
    a, b := Reversed(revA), Reversed(revB);
    BestStep(s, t, 0, 0);
    assert s[0..] == s && t[0..] == t;
  }

  /** The alignment returned is an alignment of the inputs, and none scores more. */
  method AlignSequencePair(s: seq<Stage>, t: seq<Stage>) returns (a: Aligned, b: Aligned)
    ensures IsAlignment(a, b, s, t)
    ensures forall a', b' :: IsAlignment(a', b', s, t) ==> Score(a', b') <= Score(a, b)
    ensures s == t && {} !in s ==> a == Whole(s) && b == Whole(s)
  {
    var dp, traceback := FillTables(s, t);
    a, b := FollowTraceback(s, t, traceback);
    assert s[..|s|] == s && t[..|t|] == t;
    forall a', b' | IsAlignment(a', b', s, t) ensures Score(a', b') <= Score(a, b) {
      BestIsUpperBound(a', b', s, t, |s|, |t|);
    }
    if s == t && {} !in s {
      WholeAligned(s);
      BestWithItself(a, b, s);
    }
  }
}
