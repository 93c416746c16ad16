/** Choosing an operating threshold on calibration data under a false-positive budget. */
module Calibration {
  import opened Prelude
  import opened Ranking
  import opened Metrics

  /** The chosen threshold, or None when nothing in budget catches a target, with its two counts. */
  datatype Choice = Choice(threshold: Option<real>, truePositives: nat, falsePositives: nat)

  datatype Counts = Counts(truePositives: nat, falsePositives: nat, trueNegatives: nat, falseNegatives: nat)

  predicate Predicted(x: Example, threshold: Option<real>) {
    threshold.Some? && x.score >= threshold.value
  }

  ghost function ThresholdCounts(d: seq<Example>, threshold: Option<real>): Counts {
    Counts(Count(d, (x: Example) => x.target && Predicted(x, threshold)),
           Count(d, (x: Example) => !x.target && Predicted(x, threshold)),
           Count(d, (x: Example) => !x.target && !Predicted(x, threshold)),
           Count(d, (x: Example) => x.target && !Predicted(x, threshold)))
  }

  /** The best in-budget threshold: most targets caught, and the highest threshold that catches as many. */
  ghost predicate Optimal(d: seq<Example>, budget: int, c: Choice) {
    match c.threshold
    case None =>
      && c.truePositives == 0 && c.falsePositives == 0
      && (forall t :: FalsePositives(d, t) <= budget ==> TruePositives(d, t) == 0)
    case Some(best) =>
      && TruePositives(d, best) == c.truePositives > 0
      && FalsePositives(d, best) == c.falsePositives <= budget
      && (forall t :: FalsePositives(d, t) <= budget ==> TruePositives(d, t) <= c.truePositives)
      && (forall t :: TruePositives(d, t) == c.truePositives ==> t <= best)
  }

  /** Optimal among the thresholds above everything from position i of the ranking on. */
  ghost predicate OptimalAbove(ranked: seq<Example>, i: nat, budget: int, c: Choice)
    requires i <= |ranked|
  {
    && (forall t :: Beyond(ranked, i, t) && FalsePositives(ranked, t) <= budget ==>
          TruePositives(ranked, t) <= c.truePositives)
    && match c.threshold
       case None => c.truePositives == 0 && c.falsePositives == 0
       case Some(best) =>
         && Beyond(ranked, i, best)
         && TruePositives(ranked, best) == c.truePositives > 0
         && FalsePositives(ranked, best) == c.falsePositives <= budget
         && (forall t :: Beyond(ranked, i, t) && TruePositives(ranked, t) == c.truePositives ==> t <= best)
  }

  function Better(c: Choice, threshold: real, tp: nat, fp: nat, budget: int): Choice {
    if fp <= budget && tp > c.truePositives then Choice(Some(threshold), tp, fp) else c
  }

  lemma {:induction false} HigherCatchesFewer(d: seq<Example>, low: real, high: real)
    requires low <= high
    ensures TruePositives(d, high) <= TruePositives(d, low)
    ensures FalsePositives(d, high) <= FalsePositives(d, low)
  {
    CountImplies(d, (x: Example) => x.target && x.score >= high, (x: Example) => x.target && x.score >= low);
    CountImplies(d, (x: Example) => !x.target && x.score >= high, (x: Example) => !x.target && x.score >= low);
  }

  lemma {:induction false} CountImplies<T>(xs: seq<T>, p: T -> bool, q: T -> bool)
    requires forall i :: 0 <= i < |xs| ==> p(xs[i]) ==> q(xs[i])
    ensures Count(xs, p) <= Count(xs, q)
  {
    if xs != [] {
      CountImplies(xs[1..], p, q);
    }
  }

  lemma BetterStep(ranked: seq<Example>, i: nat, j: nat, budget: int, c: Choice)
    requires Descending(ranked) && Group(ranked, i, j) && OptimalAbove(ranked, i, budget, c)
    ensures OptimalAbove(ranked, j, budget,
              Better(c, ranked[i].score, Targets(ranked[..j]), Controls(ranked[..j]), budget))
  {
    var s, tp, fp := ranked[i].score, Targets(ranked[..j]), Controls(ranked[..j]);
    var c' := Better(c, s, tp, fp, budget);
    GroupReach(ranked, i, j, s);
    forall t | Beyond(ranked, j, t) && t <= s
      ensures TruePositives(ranked, t) == tp && FalsePositives(ranked, t) == fp
    {
      GroupReach(ranked, i, j, t);
    }
    forall t | t > s
      ensures Beyond(ranked, i, t) && FalsePositives(ranked, t) <= fp
    {
      HigherCatchesFewer(ranked, s, t);
    }
    assert forall t :: Beyond(ranked, j, t) && FalsePositives(ranked, t) <= budget ==>
        TruePositives(ranked, t) <= c'.truePositives;
  }

  /** The false positives a target rate allows. */
  function Budget(targetFpr: real, negatives: nat): int {
    (targetFpr * negatives as real).Floor
  }

  /** The false positives are at most the target rate of the controls. */
  ghost predicate WithinRate(fp: nat, targetFpr: real, negatives: nat) {
    fp as real <= targetFpr * negatives as real
  }

  /** Rounding the budget down loses nothing: it allows exactly the counts within the rate. */
  lemma BudgetMeans(targetFpr: real, negatives: nat, fp: nat)
    ensures fp <= Budget(targetFpr, negatives) <==> WithinRate(fp, targetFpr, negatives)
  {
  }

  /** The best threshold within the rate: most targets caught, and the highest that catches as many. */
  ghost predicate BestWithinRate(d: seq<Example>, targetFpr: real, negatives: nat, c: Choice) {
    match c.threshold
    case None =>
      && c.truePositives == 0 && c.falsePositives == 0
      && (forall t :: WithinRate(FalsePositives(d, t), targetFpr, negatives) ==> TruePositives(d, t) == 0)
    case Some(best) =>
      && TruePositives(d, best) == c.truePositives > 0
      && FalsePositives(d, best) == c.falsePositives && WithinRate(c.falsePositives, targetFpr, negatives)
      && (forall t :: WithinRate(FalsePositives(d, t), targetFpr, negatives) ==>
            TruePositives(d, t) <= c.truePositives)
      && (forall t :: TruePositives(d, t) == c.truePositives ==> t <= best)
  }

  lemma OptimalIsBest(d: seq<Example>, targetFpr: real, negatives: nat, c: Choice)
    requires Optimal(d, Budget(targetFpr, negatives), c)
    ensures BestWithinRate(d, targetFpr, negatives, c)
  {
    forall t
      ensures WithinRate(FalsePositives(d, t), targetFpr, negatives)
         <==> FalsePositives(d, t) <= Budget(targetFpr, negatives)
    {
      BudgetMeans(targetFpr, negatives, FalsePositives(d, t));
    }
  }

  function Zeros(labels: seq<int>): nat {
    if labels == [] then 0 else (if labels[0] == 0 then 1 else 0) + Zeros(labels[1..])
  }

  function Total(labels: seq<int>): int {
    if labels == [] then 0 else labels[0] + Total(labels[1..])
  }

  /** On binary labels, the two sums the guard computes are the numbers of controls and of targets. */
  lemma {:induction false} BinaryTotals(labels: seq<int>, scores: seq<real>)
    requires |labels| == |scores| && Binary(labels)
    ensures Zeros(labels) == Controls(Zip(labels, scores)) && Total(labels) == Targets(Zip(labels, scores))
  {
    if labels != [] {
      BinaryTotals(labels[1..], scores[1..]);
      assert Zip(labels, scores)[1..] == Zip(labels[1..], scores[1..]);
    }
  }

  /**
   Returns the optimum over all real thresholds. The budget is the target rate of the controls, rounded down.
   Labels are not checked here: whatever is not 1 counts as a control in the scan, and only 0 in the budget.
   */
  method SelectCalibrationThreshold(labels: seq<int>, scores: seq<real>, targetFpr: real)
    returns (r: Result<Choice, EvaluationError>)
    ensures |labels| != |scores| || labels == [] || !(0.0 < targetFpr < 1.0) ==> r == Err(BadInput)
    ensures |labels| == |scores| != 0 && 0.0 < targetFpr < 1.0 ==>
              if Zeros(labels) == 0 || Total(labels) == 0 then r == Err(OneClass)
              else
                && r.Ok? && Optimal(Zip(labels, scores), Budget(targetFpr, Zeros(labels)), r.value)
                && BestWithinRate(Zip(labels, scores), targetFpr, Zeros(labels), r.value)
  {
    if |labels| != |scores| || labels == [] || !(0.0 < targetFpr < 1.0) {
      return Err(BadInput);
    }
    var negatives := Zeros(labels);
    if negatives == 0 || Total(labels) == 0 {
      return Err(OneClass);
    }
    var data := Zip(labels, scores);
    var budget := Budget(targetFpr, negatives);
    var ranked := Ranked(data);
    var c := ScanThresholds(ranked, budget);
    OptimalPermuted(ranked, data, budget, c);
    OptimalIsBest(data, targetFpr, negatives, c);
    r := Ok(c);
  }

  method ScanThresholds(ranked: seq<Example>, budget: int) returns (c: Choice)
    requires Descending(ranked)
    ensures OptimalAbove(ranked, |ranked|, budget, c)
  {
    c := Choice(None, 0, 0);
    var tp, fp, i := 0, 0, 0;
    NothingAbove(ranked);
    while i < |ranked|
      invariant 0 <= i <= |ranked|
      invariant tp == Targets(ranked[..i]) && fp == Controls(ranked[..i])
      invariant forall k, l :: 0 <= k < i <= l < |ranked| ==> ranked[k].score > ranked[l].score
      invariant OptimalAbove(ranked, i, budget, c)
    {
      var threshold := ranked[i].score;
      var j, tp', fp' := ScanGroup(ranked, i, tp, fp);
      BetterStep(ranked, i, j, budget, c);
      c := Better(c, threshold, tp', fp', budget);
      tp, fp, i := tp', fp', j;
    }
  }

  lemma OptimalPermuted(ranked: seq<Example>, d: seq<Example>, budget: int, c: Choice)
    requires multiset(ranked) == multiset(d) && OptimalAbove(ranked, |ranked|, budget, c)
    ensures Optimal(d, budget, c)
  {
    forall t
      ensures TruePositives(ranked, t) == TruePositives(d, t) && FalsePositives(ranked, t) == FalsePositives(d, t)
    {
      CountsPermuted(ranked, d, t);
    }
    assert forall t :: Beyond(ranked, |ranked|, t);
  }

  /** The counts reported with the choice are those of applying the threshold to the same data. */
  lemma ChoiceCounts(d: seq<Example>, budget: int, c: Choice)
    requires Optimal(d, budget, c)
    ensures ThresholdCounts(d, c.threshold).truePositives == c.truePositives
    ensures ThresholdCounts(d, c.threshold).falsePositives == c.falsePositives
    ensures ThresholdCounts(d, c.threshold).falseNegatives == Targets(d) - c.truePositives
    ensures ThresholdCounts(d, c.threshold).trueNegatives == Controls(d) - c.falsePositives
  {
    Complement(d, (x: Example) => x.target, (x: Example) => x.target && Predicted(x, c.threshold),
               (x: Example) => x.target && !Predicted(x, c.threshold));
    Complement(d, (x: Example) => !x.target, (x: Example) => !x.target && Predicted(x, c.threshold),
               (x: Example) => !x.target && !Predicted(x, c.threshold));
    match c.threshold
    case None =>
      NoneCounted(d, (x: Example) => x.target && Predicted(x, c.threshold));
      NoneCounted(d, (x: Example) => !x.target && Predicted(x, c.threshold));
    case Some(t) =>
      CountSame(d, (x: Example) => x.target && Predicted(x, c.threshold), (x: Example) => x.target && x.score >= t);
      CountSame(d, (x: Example) => !x.target && Predicted(x, c.threshold), (x: Example) => !x.target && x.score >= t);
  }

  lemma {:induction false} Complement<T>(xs: seq<T>, p: T -> bool, q: T -> bool, r: T -> bool)
    requires forall i :: 0 <= i < |xs| ==> (p(xs[i]) <==> q(xs[i]) || r(xs[i])) && !(q(xs[i]) && r(xs[i]))
    ensures Count(xs, p) == Count(xs, q) + Count(xs, r)
  {
    if xs != [] {
      Complement(xs[1..], p, q, r);
    }
  }
}
