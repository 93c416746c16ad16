/** Scored examples, ranking by descending score, and counts and sums that do not depend on order. */
module Ranking {

  datatype Example = Example(score: real, target: bool)

  ghost function Count<T>(xs: seq<T>, p: T -> bool): nat {
    if xs == [] then 0 else (if p(xs[0]) then 1 else 0) + Count(xs[1..], p)
  }

  ghost function Sum<T>(xs: seq<T>, f: T -> real): real {
    if xs == [] then 0.0 else f(xs[0]) + Sum(xs[1..], f)
  }

  ghost function SumInt<T>(xs: seq<T>, f: T -> int): int {
    if xs == [] then 0 else f(xs[0]) + SumInt(xs[1..], f)
  }

  lemma {:induction false} SumIntConcat<T>(xs: seq<T>, ys: seq<T>, f: T -> int)
    ensures SumInt(xs + ys, f) == SumInt(xs, f) + SumInt(ys, f)
  {
    if xs == [] {
      assert xs + ys == ys;
    } else {
      SumIntConcat(xs[1..], ys, f);
      assert (xs + ys)[1..] == xs[1..] + ys;
    }
  }

  lemma {:induction false} SumIntSame<T>(xs: seq<T>, f: T -> int, g: T -> int)
    requires forall i :: 0 <= i < |xs| ==> f(xs[i]) == g(xs[i])
    ensures SumInt(xs, f) == SumInt(xs, g)
  {
    if xs != [] {
      SumIntSame(xs[1..], f, g);
    }
  }

  lemma {:induction false} SumIntPermuted<T>(xs: seq<T>, ys: seq<T>, f: T -> int)
    requires multiset(xs) == multiset(ys)
    ensures SumInt(xs, f) == SumInt(ys, f)
  {
    if xs == [] {
      assert |multiset(ys)| == 0;
    } else {
      var i := RemoveOne(xs, ys);
      SumIntPermuted(xs[1..], ys[..i] + ys[i + 1..], f);
      SumIntConcat(ys[..i], ys[i + 1..], f);
      SumIntConcat(ys[..i], [xs[0]] + ys[i + 1..], f);
      assert ([xs[0]] + ys[i + 1..])[1..] == ys[i + 1..];
    }
  }

  lemma {:induction false} CountConcat<T>(xs: seq<T>, ys: seq<T>, p: T -> bool)
    ensures Count(xs + ys, p) == Count(xs, p) + Count(ys, p)
  {
    if xs == [] {
      assert xs + ys == ys;
    } else {
      CountConcat(xs[1..], ys, p);
      assert (xs + ys)[1..] == xs[1..] + ys;
    }
  }

  lemma {:induction false} SumConcat<T>(xs: seq<T>, ys: seq<T>, f: T -> real)
    ensures Sum(xs + ys, f) == Sum(xs, f) + Sum(ys, f)
  {
    if xs == [] {
      assert xs + ys == ys;
    } else {
      SumConcat(xs[1..], ys, f);
      assert (xs + ys)[1..] == xs[1..] + ys;
    }
  }

  lemma {:induction false} CountSame<T>(xs: seq<T>, p: T -> bool, q: T -> bool)
    requires forall i :: 0 <= i < |xs| ==> p(xs[i]) == q(xs[i])
    ensures Count(xs, p) == Count(xs, q)
  {
    if xs != [] {
      CountSame(xs[1..], p, q);
    }
  }

  lemma {:induction false} SumSame<T>(xs: seq<T>, f: T -> real, g: T -> real)
    requires forall i :: 0 <= i < |xs| ==> f(xs[i]) == g(xs[i])
    ensures Sum(xs, f) == Sum(xs, g)
  {
    if xs != [] {
      SumSame(xs[1..], f, g);
    }
  }

  /** Moving one element out of the middle. */
  lemma RemoveOne<T>(xs: seq<T>, ys: seq<T>) returns (i: nat)
    requires xs != [] && multiset(xs) == multiset(ys)
    ensures i < |ys| && ys[i] == xs[0] && ys == ys[..i] + ([xs[0]] + ys[i + 1..])
    ensures multiset(xs[1..]) == multiset(ys[..i] + ys[i + 1..])
  {
    assert xs[0] in multiset(ys);
    i :| 0 <= i < |ys| && ys[i] == xs[0];
    assert xs == [xs[0]] + xs[1..];
    assert ys == ys[..i] + ([xs[0]] + ys[i + 1..]);
    assert multiset(xs) == multiset{xs[0]} + multiset(xs[1..]);
    assert multiset(ys) == multiset(ys[..i]) + (multiset{xs[0]} + multiset(ys[i + 1..]));
    assert multiset(ys[..i] + ys[i + 1..]) == multiset(ys[..i]) + multiset(ys[i + 1..]);
    assert multiset(xs[1..]) == multiset(xs) - multiset{xs[0]};
    assert multiset(ys[..i] + ys[i + 1..]) == multiset(ys) - multiset{xs[0]};
  }

  lemma {:induction false} CountPermuted<T>(xs: seq<T>, ys: seq<T>, p: T -> bool)
    requires multiset(xs) == multiset(ys)
    ensures Count(xs, p) == Count(ys, p)
  {
    if xs == [] {
      assert |multiset(ys)| == 0;
    } else {
      var i := RemoveOne(xs, ys);
      CountPermuted(xs[1..], ys[..i] + ys[i + 1..], p);
      CountConcat(ys[..i], ys[i + 1..], p);
      CountConcat(ys[..i], [xs[0]] + ys[i + 1..], p);
      assert ([xs[0]] + ys[i + 1..])[1..] == ys[i + 1..];
    }
  }

  lemma {:induction false} SumPermuted<T>(xs: seq<T>, ys: seq<T>, f: T -> real)
    requires multiset(xs) == multiset(ys)
    ensures Sum(xs, f) == Sum(ys, f)
  {
    if xs == [] {
      assert |multiset(ys)| == 0;
    } else {
      var i := RemoveOne(xs, ys);
      SumPermuted(xs[1..], ys[..i] + ys[i + 1..], f);
      SumConcat(ys[..i], ys[i + 1..], f);
      SumConcat(ys[..i], [xs[0]] + ys[i + 1..], f);
      assert ([xs[0]] + ys[i + 1..])[1..] == ys[i + 1..];
    }
  }

  predicate Descending(xs: seq<Example>) {
    forall i, j :: 0 <= i < j < |xs| ==> xs[i].score >= xs[j].score
  }

  function InsertDescending(x: Example, xs: seq<Example>): (r: seq<Example>)
    requires Descending(xs)
    ensures Descending(r) && multiset(r) == multiset(xs) + multiset{x}
  {
    if xs == [] || x.score >= xs[0].score then
      [x] + xs
    else
      assert xs == [xs[0]] + xs[1..];
      var rest := InsertDescending(x, xs[1..]);
      HeadDominates(x, xs, rest);
      [xs[0]] + rest
  }

  lemma HeadDominates(x: Example, xs: seq<Example>, rest: seq<Example>)
    requires xs != [] && Descending(xs) && x.score <= xs[0].score
    requires multiset(rest) == multiset(xs[1..]) + multiset{x}
    ensures forall k :: 0 <= k < |rest| ==> rest[k].score <= xs[0].score
  {
    forall k | 0 <= k < |rest|
      ensures rest[k].score <= xs[0].score
    {
      assert rest[k] in multiset(rest);
      assert rest[k] == x || rest[k] in xs[1..];
    }
  }

  /** Python's `sorted(..., reverse=True)` by score. */
  function Ranked(xs: seq<Example>): (r: seq<Example>)
    ensures Descending(r) && multiset(r) == multiset(xs) && |r| == |xs|
  {
    if xs == [] then []
    else
      assert xs == [xs[0]] + xs[1..];
      var r := InsertDescending(xs[0], Ranked(xs[1..]));
      assert |multiset(r)| == |multiset(xs)|;
      r
  }

  ghost function Targets(xs: seq<Example>): nat {
    Count(xs, (x: Example) => x.target)
  }

  ghost function Controls(xs: seq<Example>): nat {
    Count(xs, (x: Example) => !x.target)
  }

  lemma {:induction false} TargetsAndControls(xs: seq<Example>)
    ensures Targets(xs) + Controls(xs) == |xs|
  {
    if xs != [] {
      TargetsAndControls(xs[1..]);
    }
  }

  lemma PrefixCounts(xs: seq<Example>, i: nat, j: nat)
    requires i <= j <= |xs|
    ensures Targets(xs[..j]) == Targets(xs[..i]) + Targets(xs[i..j])
    ensures Controls(xs[..j]) == Controls(xs[..i]) + Controls(xs[i..j])
  {
    assert xs[..j] == xs[..i] + xs[i..j];
    CountConcat(xs[..i], xs[i..j], (x: Example) => x.target);
    CountConcat(xs[..i], xs[i..j], (x: Example) => !x.target);
  }

  lemma NextCounts(xs: seq<Example>, j: nat)
    requires j < |xs|
    ensures Targets(xs[..j + 1]) == Targets(xs[..j]) + if xs[j].target then 1 else 0
    ensures Controls(xs[..j + 1]) == Controls(xs[..j]) + if xs[j].target then 0 else 1
  {
    PrefixCounts(xs, j, j + 1);
    var one := xs[j..j + 1];
    assert one[0] == xs[j] && one[1..] == [];
    assert Targets(one) == (if one[0].target then 1 else 0) + Targets(one[1..]);
    assert Controls(one) == (if !one[0].target then 1 else 0) + Controls(one[1..]);
  }

  /**
   The inner loop both metrics share: passes over the group of equal scores that starts at i, counting
   its targets and controls on top of those before.
   */
  method ScanGroup(ranked: seq<Example>, i: nat, tp: nat, fp: nat) returns (j: nat, tp': nat, fp': nat)
    requires i < |ranked| && Descending(ranked)
    requires tp == Targets(ranked[..i]) && fp == Controls(ranked[..i])
    ensures i < j <= |ranked|
    ensures forall k :: i <= k < j ==> ranked[k].score == ranked[i].score
    ensures forall k :: j <= k < |ranked| ==> ranked[k].score < ranked[i].score
    ensures tp' == Targets(ranked[..j]) && fp' == Controls(ranked[..j])
  {
    j, tp', fp' := i, tp, fp;
    while j < |ranked| && ranked[j].score == ranked[i].score
      invariant i <= j <= |ranked|
      invariant forall k :: i <= k < j ==> ranked[k].score == ranked[i].score
      invariant tp' == Targets(ranked[..j]) && fp' == Controls(ranked[..j])
    {
      NextCounts(ranked, j);
      if ranked[j].target {
        tp' := tp' + 1;
      } else {
        fp' := fp' + 1;
      }
      j := j + 1;
    }
  }

  // ---------- counts at a threshold ----------

  ghost function TruePositives(xs: seq<Example>, t: real): nat {
    Count(xs, (x: Example) => x.target && x.score >= t)
  }

  ghost function FalsePositives(xs: seq<Example>, t: real): nat {
    Count(xs, (x: Example) => !x.target && x.score >= t)
  }

  lemma {:induction false} NoneCounted<T>(xs: seq<T>, p: T -> bool)
    requires forall i :: 0 <= i < |xs| ==> !p(xs[i])
    ensures Count(xs, p) == 0
  {
    if xs != [] {
      NoneCounted(xs[1..], p);
    }
  }

  /** A threshold that separates a prefix of the ranking counts exactly that prefix. */
  lemma PrefixAtThreshold(ranked: seq<Example>, j: nat, t: real)
    requires j <= |ranked|
    requires forall k :: 0 <= k < j ==> ranked[k].score >= t
    requires forall k :: j <= k < |ranked| ==> ranked[k].score < t
    ensures TruePositives(ranked, t) == Targets(ranked[..j])
    ensures FalsePositives(ranked, t) == Controls(ranked[..j])
  {
    var hit, miss := (x: Example) => x.target && x.score >= t, (x: Example) => !x.target && x.score >= t;
    assert ranked == ranked[..j] + ranked[j..];
    CountConcat(ranked[..j], ranked[j..], hit);
    CountConcat(ranked[..j], ranked[j..], miss);
    NoneCounted(ranked[j..], hit);
    NoneCounted(ranked[j..], miss);
    CountSame(ranked[..j], hit, (x: Example) => x.target);
    CountSame(ranked[..j], miss, (x: Example) => !x.target);
  }
}
