/**
 Tie-aware ROC and precision-recall metrics, in exact arithmetic.

 Curve points are kept as counts: a false-positive rate is its numerator over the fixed number of
 controls, a true-positive rate (recall) its numerator over the fixed number of targets.
 */
module Metrics {
  import opened Prelude
  import opened Ranking

  datatype EvaluationError = BadInput | NotBinary | OneClass

  /** rocAuc is areaTwice / (2 * positives * negatives); averagePrecision is precisionSum / positives. */
  datatype Report = Report(
    positives: nat, negatives: nat, areaTwice: int, precisionSum: real,
    falsePositives: seq<nat>, truePositives: seq<nat>, precision: seq<Rate>)

  /** A rate as the two counts it divides. */
  datatype Rate = Rate(part: nat, whole: nat)

  predicate Binary(labels: seq<int>) {
    forall i :: 0 <= i < |labels| ==> labels[i] == 0 || labels[i] == 1
  }

  function Zip(labels: seq<int>, scores: seq<real>): seq<Example>
    requires |labels| == |scores|
  {
    seq(|labels|, i requires 0 <= i < |labels| => Example(scores[i], labels[i] == 1))
  }

  // ---------- what the areas mean ----------

  ghost function Above(d: seq<Example>, s: real): nat {
    Count(d, (x: Example) => x.target && x.score > s)
  }

  ghost function Tied(d: seq<Example>, s: real): nat {
    Count(d, (x: Example) => x.target && x.score == s)
  }

  /** Twice the targets a control is correctly ranked below, plus the targets it is tied with. */
  ghost function Wins(d: seq<Example>, x: Example): int {
    if x.target then 0 else 2 * Above(d, x.score) + Tied(d, x.score)
  }

  ghost function WinsIn(d: seq<Example>): Example -> int {
    (x: Example) => Wins(d, x)
  }

  /** The Mann-Whitney statistic, doubled: two per correctly ordered target/control pair, one per tie. */
  ghost function MannWhitneyTwice(d: seq<Example>): int {
    SumInt(d, WinsIn(d))
  }

  /** The precision at a target's own score. */
  ghost function PrecisionAt(d: seq<Example>, x: Example): real {
    var tp, fp := TruePositives(d, x.score), FalsePositives(d, x.score);
    if x.target then Fraction(tp, tp + fp) else 0.0
  }

  function Fraction(a: nat, b: nat): real {
    if b == 0 then 0.0 else a as real / b as real
  }

  ghost function PrecisionIn(d: seq<Example>): Example -> real {
    (x: Example) => PrecisionAt(d, x)
  }

  ghost function TotalPrecision(d: seq<Example>): real {
    Sum(d, PrecisionIn(d))
  }

  lemma CountsPermuted(d: seq<Example>, e: seq<Example>, t: real)
    requires multiset(d) == multiset(e)
    ensures Above(d, t) == Above(e, t) && Tied(d, t) == Tied(e, t)
    ensures TruePositives(d, t) == TruePositives(e, t) && FalsePositives(d, t) == FalsePositives(e, t)
  {
    CountPermuted(d, e, (x: Example) => x.target && x.score > t);
    CountPermuted(d, e, (x: Example) => x.target && x.score == t);
    CountPermuted(d, e, (x: Example) => x.target && x.score >= t);
    CountPermuted(d, e, (x: Example) => !x.target && x.score >= t);
  }

  /** None of the statistics depends on the order of the examples. */
  lemma StatisticsPermuted(d: seq<Example>, e: seq<Example>)
    requires multiset(d) == multiset(e)
    ensures Targets(d) == Targets(e) && Controls(d) == Controls(e)
    ensures MannWhitneyTwice(d) == MannWhitneyTwice(e) && TotalPrecision(d) == TotalPrecision(e)
  {
    CountPermuted(d, e, (x: Example) => x.target);
    CountPermuted(d, e, (x: Example) => !x.target);
    forall i | 0 <= i < |e|
      ensures Wins(d, e[i]) == Wins(e, e[i]) && PrecisionAt(d, e[i]) == PrecisionAt(e, e[i])
    {
      CountsPermuted(d, e, e[i].score);
    }
    SumIntPermuted(d, e, WinsIn(d));
    SumIntSame(e, WinsIn(d), WinsIn(e));
    SumPermuted(d, e, PrecisionIn(d));
    SumSame(e, PrecisionIn(d), PrecisionIn(e));
  }

  // ---------- one group of equal scores ----------

  /** i..j is a maximal group of equal scores of a ranking. */
  ghost predicate Group(ranked: seq<Example>, i: nat, j: nat) {
    && i < j <= |ranked|
    && (forall k :: 0 <= k < i ==> ranked[k].score > ranked[i].score)
    && (forall k :: i <= k < j ==> ranked[k].score == ranked[i].score)
    && (forall k :: j <= k < |ranked| ==> ranked[k].score < ranked[i].score)
  }

  /** t lies above every score from position i of the ranking on. */
  ghost predicate Beyond(ranked: seq<Example>, i: nat, t: real)
    requires i <= |ranked|
  {
    i < |ranked| ==> t > ranked[i].score
  }

  /** Thresholds within the new group's reach all count exactly the new prefix. */
  lemma GroupReach(ranked: seq<Example>, i: nat, j: nat, t: real)
    requires Group(ranked, i, j) && t <= ranked[i].score && Beyond(ranked, j, t) && Descending(ranked)
    ensures TruePositives(ranked, t) == Targets(ranked[..j]) && FalsePositives(ranked, t) == Controls(ranked[..j])
  {
    PrefixAtThreshold(ranked, j, t);
  }

  /** Above the highest score nothing is counted. */
  lemma NothingAbove(ranked: seq<Example>)
    requires Descending(ranked)
    ensures forall t :: Beyond(ranked, 0, t) ==> TruePositives(ranked, t) == 0 && FalsePositives(ranked, t) == 0
  {
    forall t | Beyond(ranked, 0, t)
      ensures TruePositives(ranked, t) == 0 && FalsePositives(ranked, t) == 0
    {
      PrefixAtThreshold(ranked, 0, t);
    }
  }

  lemma GroupAbove(ranked: seq<Example>, i: nat, j: nat)
    requires Group(ranked, i, j)
    ensures Above(ranked, ranked[i].score) == Targets(ranked[..i])
  {
    var s := ranked[i].score;
    var above := (x: Example) => x.target && x.score > s;
    assert ranked == ranked[..i] + ranked[i..];
    CountConcat(ranked[..i], ranked[i..], above);
    forall k | 0 <= k < |ranked[i..]|
      ensures !above(ranked[i..][k])
    {
      assert ranked[i..][k] == ranked[i + k];
    }
    NoneCounted(ranked[i..], above);
    CountSame(ranked[..i], above, (x: Example) => x.target);
  }

  lemma GroupTied(ranked: seq<Example>, i: nat, j: nat)
    requires Group(ranked, i, j)
    ensures Tied(ranked, ranked[i].score) == Targets(ranked[i..j])
  {
    var s := ranked[i].score;
    var tied := (x: Example) => x.target && x.score == s;
    assert ranked == ranked[..j] + ranked[j..] && ranked[..j] == ranked[..i] + ranked[i..j];
    CountConcat(ranked[..j], ranked[j..], tied);
    CountConcat(ranked[..i], ranked[i..j], tied);
    NoneCounted(ranked[..i], tied);
    NoneCounted(ranked[j..], tied);
    CountSame(ranked[i..j], tied, (x: Example) => x.target);
  }

  lemma {:induction false} ConstantOnControls(xs: seq<Example>, f: Example -> int, v: int)
    requires forall i :: 0 <= i < |xs| ==> f(xs[i]) == if xs[i].target then 0 else v
    ensures SumInt(xs, f) == Controls(xs) * v
  {
    if xs != [] {
      ConstantOnControls(xs[1..], f, v);
    }
  }

  lemma {:induction false} ConstantOnTargets(xs: seq<Example>, f: Example -> real, v: real)
    requires forall i :: 0 <= i < |xs| ==> f(xs[i]) == if xs[i].target then v else 0.0
    ensures Sum(xs, f) == Targets(xs) as real * v
  {
    if xs != [] {
      ConstantOnTargets(xs[1..], f, v);
    }
  }

  /** A control in the group wins against the targets before the group and half-wins against its own. */
  lemma GroupValue(ranked: seq<Example>, i: nat, j: nat, k: nat)
    requires Group(ranked, i, j) && i <= k < j
    ensures Wins(ranked, ranked[k])
         == if ranked[k].target then 0 else Targets(ranked[..i]) + Targets(ranked[..j])
  {
    GroupAbove(ranked, i, j);
    GroupTied(ranked, i, j);
    PrefixCounts(ranked, i, j);
  }

  lemma GroupWins(ranked: seq<Example>, i: nat, j: nat, v: int)
    requires Group(ranked, i, j) && v == Targets(ranked[..i]) + Targets(ranked[..j])
    ensures SumInt(ranked[..j], WinsIn(ranked))
         == SumInt(ranked[..i], WinsIn(ranked)) + (Controls(ranked[..j]) - Controls(ranked[..i])) * v
  {
    var group := ranked[i..j];
    assert ranked[..j] == ranked[..i] + group;
    SumIntConcat(ranked[..i], group, WinsIn(ranked));
    PrefixCounts(ranked, i, j);
    forall k | 0 <= k < |group|
      ensures WinsIn(ranked)(group[k]) == if group[k].target then 0 else v
    {
      GroupValue(ranked, i, j, i + k);
    }
    ConstantOnControls(group, WinsIn(ranked), v);
  }

  lemma GroupPrecisionValue(ranked: seq<Example>, i: nat, j: nat, k: nat)
    requires Group(ranked, i, j) && i <= k < j
    ensures PrecisionAt(ranked, ranked[k])
         == var tp, fp := Targets(ranked[..j]), Controls(ranked[..j]);
            if ranked[k].target then Fraction(tp, tp + fp) else 0.0
  {
    PrefixAtThreshold(ranked, j, ranked[k].score);
  }

  /** A precision sum after a group that raises the true positives from `before` to `after`. */
  function Added(sum: real, before: nat, after: nat, precision: real): real {
    sum + (after as int - before) as real * precision
  }

  lemma GroupPrecision(ranked: seq<Example>, i: nat, j: nat, v: real)
    requires Group(ranked, i, j) && v == Fraction(Targets(ranked[..j]), Targets(ranked[..j]) + Controls(ranked[..j]))
    ensures Sum(ranked[..j], PrecisionIn(ranked))
         == Added(Sum(ranked[..i], PrecisionIn(ranked)), Targets(ranked[..i]), Targets(ranked[..j]), v)
  {
    GroupPrecisionValues(ranked, i, j, v);
    GroupSum(ranked, i, j, v);
  }

  lemma GroupPrecisionValues(ranked: seq<Example>, i: nat, j: nat, v: real)
    requires Group(ranked, i, j) && v == Fraction(Targets(ranked[..j]), Targets(ranked[..j]) + Controls(ranked[..j]))
    ensures forall k :: i <= k < j ==> PrecisionAt(ranked, ranked[k]) == if ranked[k].target then v else 0.0
  {
    forall k | i <= k < j
      ensures PrecisionAt(ranked, ranked[k]) == if ranked[k].target then v else 0.0
    {
      GroupPrecisionValue(ranked, i, j, k);
    }
  }

  lemma GroupSum(ranked: seq<Example>, i: nat, j: nat, v: real)
    requires i < j <= |ranked|
    requires forall k :: i <= k < j ==> PrecisionAt(ranked, ranked[k]) == if ranked[k].target then v else 0.0
    ensures Sum(ranked[..j], PrecisionIn(ranked))
         == Added(Sum(ranked[..i], PrecisionIn(ranked)), Targets(ranked[..i]), Targets(ranked[..j]), v)
  {
    var group := ranked[i..j];
    assert ranked[..j] == ranked[..i] + group;
    SumConcat(ranked[..i], group, PrecisionIn(ranked));
    PrefixCounts(ranked, i, j);
    ConstantOnTargets(group, PrecisionIn(ranked), v);
  }

  // ---------- the areas as the program computes them ----------

  /** One trapezoid, doubled. */
  function Strip(fp: nat, fp': nat, tp: nat, tp': nat): int {
    (fp' as int - fp) * (tp' + tp)
  }

  /** The trapezoid sum over a curve, times 2 * positives * negatives. */
  function TrapezoidTwice(fps: seq<nat>, tps: seq<nat>): int
    requires |fps| == |tps|
  {
    if |fps| < 2 then 0
    else
      var n := |fps| - 1;
      TrapezoidTwice(fps[..n], tps[..n]) + Strip(fps[n - 1], fps[n], tps[n - 1], tps[n])
  }

  lemma TrapezoidStep(fps: seq<nat>, tps: seq<nat>, a: nat, b: nat)
    requires |fps| == |tps| >= 1
    ensures TrapezoidTwice(fps + [a], tps + [b])
         == TrapezoidTwice(fps, tps) + Strip(fps[|fps| - 1], a, tps[|tps| - 1], b)
  {
    var f, t, n := fps + [a], tps + [b], |fps|;
    assert f[..n] == fps && t[..n] == tps;
    assert f[n] == a && t[n] == b && f[n - 1] == fps[n - 1] && t[n - 1] == tps[n - 1];
  }

  /** The state of the ranking loop at a group boundary. */
  datatype Progress = Progress(fps: seq<nat>, tps: seq<nat>, precision: seq<Rate>, precisionSum: real)

  /** The values the program appends for a group. */
  function Extended(s: Progress, tp: nat, fp: nat): Progress
    requires |s.tps| >= 1
  {
    Progress(s.fps + [fp], s.tps + [tp], s.precision + [Rate(tp, tp + fp)],
             Added(s.precisionSum, s.tps[|s.tps| - 1], tp, Fraction(tp, tp + fp)))
  }

  /** Every curve point so far is the pair of counts at one threshold, and the areas are sums over the prefix. */
  ghost predicate Traced(s: Progress, ranked: seq<Example>, i: nat)
    requires i <= |ranked|
  {
    && |s.fps| == |s.tps| == |s.precision| >= 1 && s.fps[0] == 0 == s.tps[0]
    && s.fps[|s.fps| - 1] == Controls(ranked[..i]) && s.tps[|s.tps| - 1] == Targets(ranked[..i])
    && TrapezoidTwice(s.fps, s.tps) == SumInt(ranked[..i], WinsIn(ranked))
    && s.precisionSum == Sum(ranked[..i], PrecisionIn(ranked))
    && (forall k :: 1 <= k < |s.fps| ==> AtThreshold(ranked, s.fps[k], s.tps[k]))
  }

  ghost predicate AtThreshold(d: seq<Example>, fp: nat, tp: nat) {
    exists t :: fp == FalsePositives(d, t) && tp == TruePositives(d, t)
  }

  lemma AreaStep(s: Progress, ranked: seq<Example>, i: nat, j: nat)
    requires Group(ranked, i, j) && Traced(s, ranked, i)
    ensures TrapezoidTwice(s.fps + [Controls(ranked[..j])], s.tps + [Targets(ranked[..j])])
         == SumInt(ranked[..j], WinsIn(ranked))
  {
    var v := Targets(ranked[..i]) + Targets(ranked[..j]);
    GroupWins(ranked, i, j, v);
    TrapezoidStep(s.fps, s.tps, Controls(ranked[..j]), Targets(ranked[..j]));
  }

  lemma TracedStep(s: Progress, ranked: seq<Example>, i: nat, j: nat)
    requires Group(ranked, i, j) && Traced(s, ranked, i)
    ensures Traced(Extended(s, Targets(ranked[..j]), Controls(ranked[..j])), ranked, j)
  {
    var tp, fp := Targets(ranked[..j]), Controls(ranked[..j]);
    AreaStep(s, ranked, i, j);
    GroupPrecision(ranked, i, j, Fraction(tp, tp + fp));
    var e := Extended(s, tp, fp);
    TracedPoint(s, ranked, i, j, e.precision, e.precisionSum);
  }

  lemma TracedPoint(s: Progress, ranked: seq<Example>, i: nat, j: nat, precision: seq<Rate>, precisionSum: real)
    requires Group(ranked, i, j) && Traced(s, ranked, i) && |precision| == |s.precision| + 1
    requires precisionSum == Sum(ranked[..j], PrecisionIn(ranked))
    requires TrapezoidTwice(s.fps + [Controls(ranked[..j])], s.tps + [Targets(ranked[..j])])
          == SumInt(ranked[..j], WinsIn(ranked))
    ensures Traced(Progress(s.fps + [Controls(ranked[..j])], s.tps + [Targets(ranked[..j])], precision, precisionSum),
                   ranked, j)
  {
    PrefixAtThreshold(ranked, j, ranked[i].score);
    var fps, tps := s.fps + [Controls(ranked[..j])], s.tps + [Targets(ranked[..j])];
    forall k | 1 <= k < |fps|
      ensures AtThreshold(ranked, fps[k], tps[k])
    {
      if k < |s.fps| {
        assert AtThreshold(ranked, s.fps[k], s.tps[k]);
      }
    }
  }

  /** Curve points only move up and right, and each carries its own precision; the first is (0, 0) at 1. */
  ghost predicate Climbing(fps: seq<nat>, tps: seq<nat>, precision: seq<Rate>) {
    && |fps| == |tps| == |precision| >= 1 && precision[0] == Rate(1, 1)
    && (forall k :: 1 <= k < |fps| ==> precision[k] == Rate(tps[k], tps[k] + fps[k]))
    && (forall k, l :: 0 <= k < l < |fps| ==> fps[k] <= fps[l] && tps[k] <= tps[l])
  }

  /** Some curve point has the counts of threshold t. */
  ghost predicate OnCurve(fps: seq<nat>, tps: seq<nat>, d: seq<Example>, t: real) {
    |fps| == |tps|
    && exists k :: 0 <= k < |fps| && fps[k] == FalsePositives(d, t) && tps[k] == TruePositives(d, t)
  }

  lemma ClimbStep(s: Progress, ranked: seq<Example>, i: nat, j: nat)
    requires Group(ranked, i, j) && Traced(s, ranked, i) && Climbing(s.fps, s.tps, s.precision)
    ensures var tp, fp := Targets(ranked[..j]), Controls(ranked[..j]);
            Climbing(s.fps + [fp], s.tps + [tp], s.precision + [Rate(tp, tp + fp)])
  {
    PrefixCounts(ranked, i, j);
  }

  /** The new point stands for every threshold that the new group lets through and the next does not. */
  lemma CoverStep(s: Progress, ranked: seq<Example>, i: nat, j: nat, t: real)
    requires Descending(ranked) && Group(ranked, i, j) && Traced(s, ranked, i) && Beyond(ranked, j, t)
    requires Beyond(ranked, i, t) ==> OnCurve(s.fps, s.tps, ranked, t)
    ensures OnCurve(s.fps + [Controls(ranked[..j])], s.tps + [Targets(ranked[..j])], ranked, t)
  {
    var fps, tps, n := s.fps + [Controls(ranked[..j])], s.tps + [Targets(ranked[..j])], |s.fps|;
    if t <= ranked[i].score {
      GroupReach(ranked, i, j, t);
      assert fps[n] == FalsePositives(ranked, t) && tps[n] == TruePositives(ranked, t);
    } else {
      var k :| 0 <= k < n && s.fps[k] == FalsePositives(ranked, t) && s.tps[k] == TruePositives(ranked, t);
      assert fps[k] == s.fps[k] && tps[k] == s.tps[k];
    }
  }

  lemma CoverSteps(s: Progress, ranked: seq<Example>, i: nat, j: nat)
    requires Descending(ranked) && Group(ranked, i, j) && Traced(s, ranked, i)
    requires forall t :: Beyond(ranked, i, t) ==> OnCurve(s.fps, s.tps, ranked, t)
    ensures forall t :: Beyond(ranked, j, t) ==>
              OnCurve(s.fps + [Controls(ranked[..j])], s.tps + [Targets(ranked[..j])], ranked, t)
  {
    forall t | Beyond(ranked, j, t)
      ensures OnCurve(s.fps + [Controls(ranked[..j])], s.tps + [Targets(ranked[..j])], ranked, t)
    {
      CoverStep(s, ranked, i, j, t);
    }
  }

  /** The ranking loop. */
  method TraceCurves(ranked: seq<Example>) returns (s: Progress)
    requires Descending(ranked)
    ensures Traced(s, ranked, |ranked|) && Climbing(s.fps, s.tps, s.precision)
    ensures forall t :: OnCurve(s.fps, s.tps, ranked, t)
  {
    s := Progress([0], [0], [Rate(1, 1)], 0.0);
    var tp, fp, i := 0, 0, 0;
    NothingAbove(ranked);
    while i < |ranked|
      invariant 0 <= i <= |ranked|
      invariant tp == Targets(ranked[..i]) && fp == Controls(ranked[..i])
      invariant forall k, l :: 0 <= k < i <= l < |ranked| ==> ranked[k].score > ranked[l].score
      invariant Traced(s, ranked, i) && Climbing(s.fps, s.tps, s.precision)
      invariant forall t :: Beyond(ranked, i, t) ==> OnCurve(s.fps, s.tps, ranked, t)
    {
      var j, tp', fp' := ScanGroup(ranked, i, tp, fp);
      TracedStep(s, ranked, i, j);
      ClimbStep(s, ranked, i, j);
      CoverSteps(s, ranked, i, j);
      s := Extended(s, tp', fp');
      tp, fp, i := tp', fp', j;
    }
    assert forall t :: Beyond(ranked, i, t);
  }

  method CountOnes(labels: seq<int>, scores: seq<real>) returns (ones: nat)
    requires |labels| == |scores| && Binary(labels)
    ensures ones == Targets(Zip(labels, scores))
  {
    ones := 0;
    ghost var d := Zip(labels, scores);
    for i := 0 to |labels|
      invariant ones == Targets(d[..i])
    {
      NextCounts(d, i);
      ones := ones + labels[i];
    }
    assert d[..|labels|] == d;
  }

  /**
   ROC AUC is the Mann-Whitney statistic over positives * negatives, and average precision is the mean over
   the targets of the precision at their own score, ties included; the curve points are exactly the pairs of
   counts at all thresholds, in order, each with its precision.
   */
  method RocPrMetrics(labels: seq<int>, scores: seq<real>) returns (r: Result<Report, EvaluationError>)
    ensures |labels| != |scores| || labels == [] ==> r == Err(BadInput)
    ensures |labels| == |scores| != 0 && !Binary(labels) ==> r == Err(NotBinary)
    ensures |labels| == |scores| != 0 && Binary(labels) ==>
              (r == Err(OneClass) <==> Targets(Zip(labels, scores)) == 0 || Controls(Zip(labels, scores)) == 0)
              && (r.Err? ==> r == Err(OneClass))
    ensures r.Ok? ==> |labels| == |scores| && ReportOf(Zip(labels, scores), r.value)
  {
    if |labels| != |scores| || labels == [] {
      return Err(BadInput);
    }
    if exists i :: 0 <= i < |labels| && labels[i] != 0 && labels[i] != 1 {
      return Err(NotBinary);
    }
    var data := Zip(labels, scores);
    var positives := CountOnes(labels, scores);
    TargetsAndControls(data);
    var negatives := |labels| - positives;
    if positives == 0 || negatives == 0 {
      return Err(OneClass);
    }
    var ranked := Ranked(data);
    var s := TraceCurves(ranked);
    TracedReport(s, ranked, data);
    CoverPermuted(s.fps, s.tps, ranked, data);
    r := Ok(Report(positives, negatives, TrapezoidTwice(s.fps, s.tps), s.precisionSum, s.fps, s.tps, s.precision));
  }

  ghost predicate ReportOf(d: seq<Example>, r: Report) {
    && r.positives == Targets(d) && r.negatives == Controls(d)
    && r.areaTwice == MannWhitneyTwice(d)
    && r.precisionSum == TotalPrecision(d)
    && Climbing(r.falsePositives, r.truePositives, r.precision)
    && r.falsePositives[0] == 0 == r.truePositives[0]
    && r.falsePositives[|r.falsePositives| - 1] == r.negatives
    && r.truePositives[|r.truePositives| - 1] == r.positives
    && (forall k :: 1 <= k < |r.falsePositives| ==> AtThreshold(d, r.falsePositives[k], r.truePositives[k]))
    && (forall t :: OnCurve(r.falsePositives, r.truePositives, d, t))
  }

  lemma CoverPermuted(fps: seq<nat>, tps: seq<nat>, ranked: seq<Example>, d: seq<Example>)
    requires multiset(ranked) == multiset(d) && forall t :: OnCurve(fps, tps, ranked, t)
    ensures forall t :: OnCurve(fps, tps, d, t)
  {
    forall t
      ensures OnCurve(fps, tps, d, t)
    {
      CountsPermuted(ranked, d, t);
      assert OnCurve(fps, tps, ranked, t);
    }
  }

  lemma TracedReport(s: Progress, ranked: seq<Example>, d: seq<Example>)
    requires multiset(ranked) == multiset(d) && Traced(s, ranked, |ranked|)
    ensures TrapezoidTwice(s.fps, s.tps) == MannWhitneyTwice(d) && s.precisionSum == TotalPrecision(d)
    ensures s.fps[|s.fps| - 1] == Controls(d) && s.tps[|s.tps| - 1] == Targets(d)
    ensures forall k :: 1 <= k < |s.fps| ==> AtThreshold(d, s.fps[k], s.tps[k])
  {
    assert ranked[..|ranked|] == ranked;
    StatisticsPermuted(ranked, d);
    forall k | 1 <= k < |s.fps|
      ensures AtThreshold(d, s.fps[k], s.tps[k])
    {
      assert AtThreshold(ranked, s.fps[k], s.tps[k]);
      var t :| s.fps[k] == FalsePositives(ranked, t) && s.tps[k] == TruePositives(ranked, t);
      CountsPermuted(ranked, d, t);
    }
  }
}
