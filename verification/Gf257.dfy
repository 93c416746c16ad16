/**
 The prime field of the Shamir code, and polynomials over it.

 Polynomials are kept as integer coefficient sequences, lowest degree first, and compared modulo 257,
 so that ring identities are ordinary integer identities and only the last step needs the field.
 */
module Gf257 {

  ghost predicate Differ(a: int, b: int, k: int) {
    a == b + 257 * k
  }

  /** a and b name the same field element. */
  ghost predicate Cong(a: int, b: int) {
    exists k :: Differ(a, b, k)
  }

  lemma Witness(a: int, b: int, k: int)
    requires a == b + 257 * k
    ensures Cong(a, b)
  {
    assert Differ(a, b, k);
  }

  /** Congruence is equality of residues. */
  lemma CongIff(a: int, b: int)
    ensures Cong(a, b) <==> a % 257 == b % 257
  {
    if Cong(a, b) {
      var k :| Differ(a, b, k);
    } else if a % 257 == b % 257 {
      Witness(a, b, a / 257 - b / 257);
    }
  }

  lemma CongMod(a: int)
    ensures Cong(a % 257, a) && Cong(a, a % 257)
  {
    CongIff(a % 257, a);
    CongIff(a, a % 257);
  }

  lemma CongSym(a: int, b: int)
    requires Cong(a, b)
    ensures Cong(b, a)
  {
    CongIff(a, b);
    CongIff(b, a);
  }

  lemma CongTrans(a: int, b: int, c: int)
    requires Cong(a, b) && Cong(b, c)
    ensures Cong(a, c)
  {
    CongIff(a, b);
    CongIff(b, c);
    CongIff(a, c);
  }

  lemma CongAdd(a: int, a': int, b: int, b': int)
    requires Cong(a, a') && Cong(b, b')
    ensures Cong(a + b, a' + b')
  {
    var k :| Differ(a, a', k);
    var m :| Differ(b, b', m);
    Witness(a + b, a' + b', k + m);
  }

  lemma CongSub(a: int, a': int, b: int, b': int)
    requires Cong(a, a') && Cong(b, b')
    ensures Cong(a - b, a' - b')
  {
    var k :| Differ(a, a', k);
    var m :| Differ(b, b', m);
    Witness(a - b, a' - b', k - m);
  }

  lemma CongMul(a: int, b: int, c: int)
    requires Cong(a, b)
    ensures Cong(a * c, b * c) && Cong(c * a, c * b)
  {
    var k :| Differ(a, b, k);
    assert a * c == b * c + 257 * (k * c) && c * a == c * b + 257 * (k * c);
    Witness(a * c, b * c, k * c);
    Witness(c * a, c * b, k * c);
  }

  lemma CongMul2(a: int, a': int, b: int, b': int)
    requires Cong(a, a') && Cong(b, b')
    ensures Cong(a * b, a' * b')
  {
    CongMul(a, a', b);
    CongMul(b, b', a');
    CongTrans(a * b, a' * b, a' * b');
  }

  /** Congruent means that the difference, either way round, vanishes. */
  lemma CongDiff(a: int, b: int)
    ensures Cong(a, b) <==> Cong(a - b, 0)
    ensures Cong(a, b) <==> Cong(b - a, 0)
  {
    CongIff(a, b);
    CongIff(a - b, 0);
    CongIff(b - a, 0);
  }

  // ---------- inverses ----------

  /** 257 is prime. */
  lemma Prime(x: int)
    requires 2 <= x <= 256
    ensures 257 % x != 0
  {
    if x <= 16 {
      assert x == 2 || x == 3 || x == 4 || x == 5 || x == 6 || x == 7 || x == 8 || x == 9
          || x == 10 || x == 11 || x == 12 || x == 13 || x == 14 || x == 15 || x == 16;
    } else {
      SmallCofactor(x, 257 / x);
    }
  }

  lemma SmallCofactor(x: int, k: int)
    requires 17 <= x <= 256
    ensures x * k != 257
  {
    if 0 < k < 16 {
      assert k == 1 || k == 2 || k == 3 || k == 4 || k == 5 || k == 6 || k == 7 || k == 8 || k == 9
          || k == 10 || k == 11 || k == 12 || k == 13 || k == 14 || k == 15;
    } else if k >= 16 {
      assert x * k >= 17 * 16 by { assert x * k == 17 * k + (x - 17) * k; }
    } else {
      assert x * k <= 0;
    }
  }

  /** The inverse by the descending recursion x^-1 = -(257 div x) * (257 mod x)^-1. */
  function Inv(x: int): (i: int)
    requires 1 <= x <= 256
    ensures 0 <= i < 257 && Cong(x * i, 1)
    decreases x
  {
    if x == 1 then
      CongIff(1, 1);
      1
    else
      Prime(x);
      var q, r := 257 / x, 257 % x;
      var j := Inv(r);
      InvStep(x, q, r, j);
      (-q * j) % 257
  }

  lemma InvStep(x: int, q: int, r: int, j: int)
    requires x * q + r == 257 && Cong(r * j, 1)
    ensures Cong(x * ((-q * j) % 257), 1)
  {
    CongMod(-q * j);
    CongMul((-q * j) % 257, -q * j, x);
    InvProduct(x, q, r, j);
    Witness(x * (-q * j), r * j, -j);
    CongTrans(x * ((-q * j) % 257), x * (-q * j), r * j);
    CongTrans(x * ((-q * j) % 257), r * j, 1);
  }

  lemma InvProduct(x: int, q: int, r: int, j: int)
    requires x * q + r == 257
    ensures x * (-q * j) == r * j + 257 * -j
  {
    calc {
      x * (-q * j);
      -(x * q) * j;
      (r - 257) * j;
      r * j + 257 * -j;
    }
  }

  lemma InverseOfResidue(a: int)
    requires !Cong(a, 0)
    ensures 1 <= a % 257 <= 256 && Cong(a * Inv(a % 257), 1)
  {
    CongIff(a, 0);
    var i := Inv(a % 257);
    CongMod(a);
    CongMul(a, a % 257, i);
    CongTrans(a * i, (a % 257) * i, 1);
  }

  /** The field has no zero divisors. */
  lemma NoZeroDivisors(a: int, b: int)
    requires Cong(a * b, 0) && !Cong(a, 0)
    ensures Cong(b, 0)
  {
    InverseOfResidue(a);
    Cancel(a, Inv(a % 257), b);
  }

  lemma Cancel(a: int, i: int, b: int)
    requires Cong(a * i, 1) && Cong(a * b, 0)
    ensures Cong(b, 0)
  {
    var m :| Differ(a * i, 1, m);
    var k :| Differ(a * b, 0, k);
    CancelProduct(a, i, b, m, k);
    Witness(b, 0, k * i - m * b);
  }

  lemma CancelProduct(a: int, i: int, b: int, m: int, k: int)
    requires a * i == 1 + 257 * m && a * b == 257 * k
    ensures b == 257 * (k * i - m * b)
  {
    calc {
      b;
      (a * i - 257 * m) * b;
      (a * b) * i - 257 * (m * b);
      257 * (k * i - m * b);
    }
  }

  /** An inverse is unique among the reduced residues. */
  lemma InvUnique(x: int, i: int)
    requires 1 <= x <= 256 && 0 <= i < 257 && Cong(x * i, 1)
    ensures i == Inv(x)
  {
    OneInverse(x, i, Inv(x));
  }

  lemma OneInverse(x: int, i: int, j: int)
    requires 0 <= i < 257 && 0 <= j < 257 && Cong(x * i, 1) && Cong(x * j, 1)
    ensures i == j
  {
    CongSub(x * i, 1, x * j, 1);
    assert x * (i - j) == x * i - x * j;
    Cancel(x, i, i - j);
    CongIff(i - j, 0);
  }

  // ---------- polynomials ----------

  function Eval(c: seq<int>, x: int): int {
    if c == [] then 0 else c[0] + x * Eval(c[1..], x)
  }

  ghost predicate ZeroPoly(c: seq<int>) {
    forall k :: 0 <= k < |c| ==> Cong(c[k], 0)
  }

  /** Quotient of c by (X - a). */
  ghost function Div(c: seq<int>, a: int): (d: seq<int>)
    ensures |d| == if c == [] then 0 else |c| - 1
  {
    if |c| <= 1 then [] else [Eval(c[1..], a)] + Div(c[1..], a)
  }

  lemma {:induction false} DivEval(c: seq<int>, a: int, x: int)
    ensures Eval(c, x) == Eval(c, a) + (x - a) * Eval(Div(c, a), x)
  {
    if |c| <= 1 {
      assert c != [] ==> c[1..] == [];
    } else {
      var t := c[1..];
      DivEval(t, a, x);
      var d := Div(t, a);
      assert Div(c, a)[1..] == d;
      DivStep(x, a, Eval(d, x), Eval(t, x), Eval(t, a));
    }
  }

  lemma DivStep(x: int, a: int, e: int, ex: int, ea: int)
    requires ex == ea + (x - a) * e
    ensures x * ex == a * ea + (x - a) * (ea + x * e)
  {
  }

  lemma {:induction false} ZeroFromDiv(c: seq<int>, a: int)
    requires Cong(Eval(c, a), 0) && ZeroPoly(Div(c, a))
    ensures ZeroPoly(c)
  {
    if |c| == 1 {
      assert c[1..] == [];
      assert Eval(c, a) == c[0] + a * 0;
    } else if |c| > 1 {
      var t := c[1..];
      var d := Div(c, a);
      assert d[0] == Eval(t, a) && d[1..] == Div(t, a);
      assert forall k :: 0 <= k < |d[1..]| ==> d[1..][k] == d[k + 1];
      ZeroFromDiv(t, a);
      CongMul(Eval(t, a), 0, a);
      CongSub(Eval(c, a), 0, a * Eval(t, a), a * 0);
      assert Cong(c[0], 0);
      assert forall k :: 1 <= k < |c| ==> c[k] == t[k - 1];
    }
  }

  ghost predicate DistinctResidues(xs: seq<int>) {
    forall i, j :: 0 <= i < j < |xs| ==> !Cong(xs[i], xs[j])
  }

  ghost predicate Roots(c: seq<int>, xs: seq<int>) {
    forall i :: 0 <= i < |xs| ==> Cong(Eval(c, xs[i]), 0)
  }

  lemma RootOfQuotient(c: seq<int>, a: int, x: int)
    requires Cong(Eval(c, a), 0) && Cong(Eval(c, x), 0) && !Cong(a, x)
    ensures Cong(Eval(Div(c, a), x), 0)
  {
    DivEval(c, a, x);
    NonzeroFactor(Eval(c, a), Eval(c, x), a, x, Eval(Div(c, a), x));
  }

  lemma NonzeroFactor(ca: int, cx: int, a: int, x: int, d: int)
    requires cx == ca + (x - a) * d && Cong(ca, 0) && Cong(cx, 0) && !Cong(a, x)
    ensures Cong(d, 0)
  {
    CongSub(cx, 0, ca, 0);
    CongDiff(a, x);
    NoZeroDivisors(x - a, d);
  }

  /** A polynomial with as many distinct roots as coefficients is zero. */
  lemma {:induction false} RootBound(c: seq<int>, xs: seq<int>)
    requires |c| <= |xs| && DistinctResidues(xs) && Roots(c, xs)
    ensures ZeroPoly(c)
    decreases |c|
  {
    if c != [] {
      var a, rest, d := xs[0], xs[1..], Div(c, xs[0]);
      forall i | 0 <= i < |rest|
        ensures Cong(Eval(d, rest[i]), 0)
      {
        RootOfQuotient(c, a, xs[i + 1]);
      }
      RootBound(d, rest);
      ZeroFromDiv(c, a);
    }
  }

  function Add(c: seq<int>, d: seq<int>): seq<int>
    requires |c| == |d|
  {
    seq(|c|, k requires 0 <= k < |c| => c[k] + d[k])
  }

  function Scale(s: int, c: seq<int>): seq<int> {
    seq(|c|, k requires 0 <= k < |c| => s * c[k])
  }

  lemma {:induction false} AddEval(c: seq<int>, d: seq<int>, x: int)
    requires |c| == |d|
    ensures Eval(Add(c, d), x) == Eval(c, x) + Eval(d, x)
  {
    if c != [] {
      AddEval(c[1..], d[1..], x);
      assert Add(c, d)[1..] == Add(c[1..], d[1..]);
    }
  }

  lemma {:induction false} ScaleEval(s: int, c: seq<int>, x: int)
    ensures Eval(Scale(s, c), x) == s * Eval(c, x)
  {
    if c != [] {
      ScaleEval(s, c[1..], x);
      assert Scale(s, c)[1..] == Scale(s, c[1..]);
      var e := Eval(c[1..], x);
      assert s * (c[0] + x * e) == s * c[0] + x * (s * e);
    }
  }

  lemma {:induction false} PadEval(c: seq<int>, x: int)
    ensures Eval(c + [0], x) == Eval(c, x)
  {
    if c == [] {
      assert (c + [0])[1..] == [];
    } else {
      PadEval(c[1..], x);
      assert (c + [0])[1..] == c[1..] + [0];
    }
  }

  /** c * (X - a). */
  function MulLinear(c: seq<int>, a: int): seq<int> {
    Add([0] + c, Scale(-a, c + [0]))
  }

  lemma MulLinearEval(c: seq<int>, a: int, x: int)
    ensures Eval(MulLinear(c, a), x) == (x - a) * Eval(c, x)
  {
    AddEval([0] + c, Scale(-a, c + [0]), x);
    ScaleEval(-a, c + [0], x);
    PadEval(c, x);
    assert ([0] + c)[1..] == c;
  }

  lemma DiffEval(c: seq<int>, d: seq<int>, x: int)
    requires |c| == |d|
    ensures Eval(Add(c, Scale(-1, d)), x) == Eval(c, x) - Eval(d, x)
  {
    AddEval(c, Scale(-1, d), x);
    ScaleEval(-1, d, x);
  }

  /** Two polynomials of at most |xs| coefficients that agree on xs have congruent coefficients. */
  lemma AgreeOnPoints(c: seq<int>, d: seq<int>, xs: seq<int>)
    requires |c| == |d| <= |xs| && DistinctResidues(xs)
    requires forall i :: 0 <= i < |xs| ==> Cong(Eval(c, xs[i]), Eval(d, xs[i]))
    ensures forall k :: 0 <= k < |c| ==> Cong(c[k], d[k])
  {
    var e := Add(c, Scale(-1, d));
    forall i | 0 <= i < |xs|
      ensures Cong(Eval(e, xs[i]), 0)
    {
      DiffEval(c, d, xs[i]);
      CongDiff(Eval(c, xs[i]), Eval(d, xs[i]));
    }
    RootBound(e, xs);
    forall k | 0 <= k < |c|
      ensures Cong(c[k], d[k])
    {
      assert e[k] == c[k] - d[k];
      CongDiff(c[k], d[k]);
    }
  }

  // ---------- interpolation ----------

  /** The product of (x - xs[j]) over j < n other than i. */
  ghost function Others(x: int, xs: seq<int>, i: nat, n: nat): int
    requires n <= |xs|
  {
    if n == 0 then 1
    else if n - 1 == i then Others(x, xs, i, n - 1)
    else Others(x, xs, i, n - 1) * (x - xs[n - 1])
  }

  /** The same product as a polynomial in x. */
  ghost function OthersPoly(xs: seq<int>, i: nat, n: nat): (c: seq<int>)
    requires n <= |xs|
    ensures |c| == if i < n then n else n + 1
  {
    if n == 0 then [1]
    else if n - 1 == i then OthersPoly(xs, i, n - 1)
    else MulLinear(OthersPoly(xs, i, n - 1), xs[n - 1])
  }

  lemma {:induction false} OthersPolyEval(xs: seq<int>, i: nat, n: nat, x: int)
    requires n <= |xs|
    ensures Eval(OthersPoly(xs, i, n), x) == Others(x, xs, i, n)
  {
    if n == 0 {
      assert [1][1..] == [];
    } else {
      OthersPolyEval(xs, i, n - 1, x);
      var c, a := OthersPoly(xs, i, n - 1), xs[n - 1];
      MulLinearEval(c, a, x);
      assert (x - a) * Eval(c, x) == Eval(c, x) * (x - a);
    }
  }

  lemma {:induction false} OthersVanish(xs: seq<int>, i: nat, m: nat, n: nat)
    requires m < n <= |xs| && m != i
    ensures Others(xs[m], xs, i, n) == 0
  {
    if n - 1 != m {
      OthersVanish(xs, i, m, n - 1);
    }
  }

  lemma {:induction false} OthersNonzero(xs: seq<int>, i: nat, n: nat)
    requires i < |xs| && n <= |xs| && DistinctResidues(xs)
    ensures !Cong(Others(xs[i], xs, i, n), 0)
  {
    if n == 0 {
      CongIff(1, 0);
    } else {
      OthersNonzero(xs, i, n - 1);
      if n - 1 != i {
        PointsDiffer(xs, i, n - 1);
        NonzeroProduct(Others(xs[i], xs, i, n - 1), xs[i] - xs[n - 1]);
      }
    }
  }

  lemma PointsDiffer(xs: seq<int>, i: nat, j: nat)
    requires i < |xs| && j < |xs| && i != j && DistinctResidues(xs)
    ensures !Cong(xs[i] - xs[j], 0)
  {
    if i < j {
      CongDiff(xs[i], xs[j]);
    } else {
      CongDiff(xs[j], xs[i]);
    }
  }

  lemma NonzeroProduct(a: int, b: int)
    requires !Cong(a, 0) && !Cong(b, 0)
    ensures !Cong(a * b, 0)
  {
    if Cong(a * b, 0) {
      NoZeroDivisors(a, b);
    }
  }

  /** Sum over i < n of zs[i] times the product of (x - xs[j]), j != i. */
  ghost function Lagrange(xs: seq<int>, zs: seq<int>, n: nat, x: int): int
    requires n <= |xs| == |zs|
  {
    if n == 0 then 0
    else Lagrange(xs, zs, n - 1, x) + zs[n - 1] * Others(x, xs, n - 1, |xs|)
  }

  /** The same sum as a polynomial with |xs| coefficients. */
  ghost function LagrangePoly(xs: seq<int>, zs: seq<int>, n: nat): (c: seq<int>)
    requires n <= |xs| == |zs|
    ensures |c| == |xs|
  {
    if n == 0 then seq(|xs|, _ => 0)
    else Add(LagrangePoly(xs, zs, n - 1), Scale(zs[n - 1], OthersPoly(xs, n - 1, |xs|)))
  }

  lemma {:induction false} ZeroEval(n: nat, x: int)
    ensures Eval(seq(n, _ => 0), x) == 0
  {
    if n > 0 {
      ZeroEval(n - 1, x);
      assert seq(n, _ => 0)[1..] == seq(n - 1, _ => 0);
    }
  }

  lemma {:induction false} LagrangePolyEval(xs: seq<int>, zs: seq<int>, n: nat, x: int)
    requires n <= |xs| == |zs|
    ensures Eval(LagrangePoly(xs, zs, n), x) == Lagrange(xs, zs, n, x)
  {
    if n == 0 {
      ZeroEval(|xs|, x);
    } else {
      LagrangePolyEval(xs, zs, n - 1, x);
      AddEval(LagrangePoly(xs, zs, n - 1), Scale(zs[n - 1], OthersPoly(xs, n - 1, |xs|)), x);
      ScaleEval(zs[n - 1], OthersPoly(xs, n - 1, |xs|), x);
      OthersPolyEval(xs, n - 1, |xs|, x);
    }
  }

  /** zs are the values ys divided by the Lagrange denominators. */
  ghost predicate Weighted(xs: seq<int>, ys: seq<int>, zs: seq<int>)
    requires |xs| == |ys| == |zs|
  {
    forall i :: 0 <= i < |xs| ==> Cong(zs[i] * Others(xs[i], xs, i, |xs|), ys[i])
  }

  /** The inverse, extended by 0 at 0. */
  ghost function Recip(a: int): int {
    if a % 257 == 0 then 0 else Inv(a % 257)
  }

  ghost function Weights(xs: seq<int>, ys: seq<int>): (zs: seq<int>)
    requires |xs| == |ys|
    ensures |zs| == |xs|
  {
    seq(|xs|, i requires 0 <= i < |xs| => ys[i] * Recip(Others(xs[i], xs, i, |xs|)))
  }

  lemma WeightsAreWeighted(xs: seq<int>, ys: seq<int>)
    requires |xs| == |ys| && DistinctResidues(xs)
    ensures Weighted(xs, ys, Weights(xs, ys))
  {
    forall i | 0 <= i < |xs|
      ensures Cong(Weights(xs, ys)[i] * Others(xs[i], xs, i, |xs|), ys[i])
    {
      var o := Others(xs[i], xs, i, |xs|);
      OthersNonzero(xs, i, |xs|);
      InverseOfResidue(o);
      SurvivingTerm(ys[i], Inv(o % 257), o);
    }
  }

  lemma SurvivingTerm(y: int, w: int, o: int)
    requires Cong(o * w, 1)
    ensures Cong(y * w * o, y)
  {
    CongMul(o * w, 1, y);
    assert y * w * o == y * (o * w) && y * 1 == y;
  }

  /** Only the m-th term of the sum survives at xs[m]. */
  lemma {:induction false} LagrangeAtPoint(xs: seq<int>, ys: seq<int>, zs: seq<int>, n: nat, m: nat)
    requires n <= |xs| == |ys| == |zs| && m < |xs| && Weighted(xs, ys, zs)
    ensures Cong(Lagrange(xs, zs, n, xs[m]), if m < n then ys[m] else 0)
  {
    if n == 0 {
      CongIff(0, 0);
    } else {
      LagrangeAtPoint(xs, ys, zs, n - 1, m);
      var term := zs[n - 1] * Others(xs[m], xs, n - 1, |xs|);
      if n - 1 != m {
        OthersVanish(xs, n - 1, m, |xs|);
        assert term == 0;
      } else {
        assert Cong(term, ys[m]);
        CongAdd(Lagrange(xs, zs, n - 1, xs[m]), 0, term, ys[m]);
      }
    }
  }

  lemma LagrangePolyAtPoint(xs: seq<int>, ys: seq<int>, zs: seq<int>, m: nat)
    requires m < |xs| == |ys| == |zs| && Weighted(xs, ys, zs)
    ensures Cong(Eval(LagrangePoly(xs, zs, |xs|), xs[m]), ys[m])
  {
    var x, n := xs[m], |xs|;
    assert Cong(Lagrange(xs, zs, n, x), ys[m]) by {
      LagrangeAtPoint(xs, ys, zs, n, m);
    }
    LagrangePolyEval(xs, zs, n, x);
  }

  /**
   The interpolation theorem: if a polynomial with |xs| coefficients takes the values ys on distinct
   points, the Lagrange sum at 0 is its constant term.
   */
  lemma InterpolationAtOrigin(c: seq<int>, xs: seq<int>, ys: seq<int>, zs: seq<int>)
    requires 1 <= |c| == |xs| == |ys| == |zs| && DistinctResidues(xs)
    requires forall i :: 0 <= i < |xs| ==> Cong(Eval(c, xs[i]), ys[i])
    requires Weighted(xs, ys, zs)
    ensures Cong(Lagrange(xs, zs, |xs|, 0), c[0])
  {
    var d := LagrangePoly(xs, zs, |xs|);
    forall i | 0 <= i < |xs|
      ensures Cong(Eval(d, xs[i]), Eval(c, xs[i]))
    {
      LagrangePolyAtPoint(xs, ys, zs, i);
      CongSym(Eval(c, xs[i]), ys[i]);
      CongTrans(Eval(d, xs[i]), ys[i], Eval(c, xs[i]));
    }
    AgreeOnPoints(d, c, xs);
    LagrangePolyEval(xs, zs, |xs|, 0);
    assert Eval(d, 0) == d[0];
  }
}
