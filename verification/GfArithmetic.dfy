/**
 The field arithmetic of the Shamir code: Horner evaluation, the extended-Euclid inverse and Lagrange
 interpolation at 0, each proved against its mathematical meaning, and the counting form of secrecy.
 */
module GfArithmetic {
  import opened Prelude
  import opened Gf257

  type element = v: int | 0 <= v <= 256

  // ---------- field arithmetic ----------

  /** Horner evaluation. */
  method GfEval(coeffs: seq<element>, x: nat) returns (result: element)
    ensures result == Eval(coeffs, x) % 257
  {
    result := 0;
    var i := |coeffs|;
    while i > 0
      invariant 0 <= i <= |coeffs|
      invariant result == Eval(coeffs[i..], x) % 257
    {
      i := i - 1;
      var rest := Eval(coeffs[i + 1..], x);
      assert coeffs[i..][1..] == coeffs[i + 1..];
      HornerStep(result, rest, x, coeffs[i]);
      result := (result * x + coeffs[i]) % 257;
    }
    assert coeffs[0..] == coeffs;
  }

  lemma HornerStep(result: int, rest: int, x: int, c: int)
    requires result == rest % 257
    ensures (result * x + c) % 257 == (c + x * rest) % 257
  {
    CongMod(rest);
    CongMul(result, rest, x);
    CongIff(c, c);
    CongAdd(result * x, rest * x, c, c);
    CongIff(result * x + c, rest * x + c);
    assert rest * x == x * rest;
  }

  /**
   Extended Euclid on 257 and x. The signed coefficients stay within 257 in magnitude, so the source's
   `i64` arithmetic neither overflows nor is truncated by the final cast.
   */
  method GfInv(x: nat) returns (inverse: element)
    requires x < 257
    ensures x == 0 ==> inverse == 0
    ensures x != 0 ==> inverse == Inv(x)
  {
    var t, newT, r, newR := 0, 1, 257, x;
    ghost var n := 0;
    while newR != 0
      invariant 0 <= newR < r && -257 < t < 257
      invariant Row(t, newT, r, newR) == Rows(x, n)
      decreases newR
    {
      RowBounds(x, n + 1);
      var quotient := r / newR;
      var tempT := t - quotient * newT;
      t := newT;
      newT := tempT;
      var tempR := r - quotient * newR;
      r := newR;
      newR := tempR;
      n := n + 1;
    }
    LastRow(x, n);
    if r != 1 {
      return 0;
    }
    if t < 0 {
      inverse := t + 257;
    } else {
      inverse := t;
    }
  }

  datatype Row = Row(t: int, newT: int, r: int, newR: int)

  /** The loop's variables after n iterations. */
  ghost function Rows(x: int, n: nat): Row {
    if n == 0 then Row(0, 1, 257, x)
    else
      var p := Rows(x, n - 1);
      if p.newR == 0 then p else Row(p.newT, p.t - p.r / p.newR * p.newT, p.newR, p.r - p.r / p.newR * p.newR)
  }

  lemma {:induction false} RowsAreEuclid(x: int, n: nat) returns (s: int)
    requires 0 <= x < 257
    ensures var row := Rows(x, n); 0 <= row.newR < row.r && Euclid(row.t, row.newT, row.r, row.newR, s, x)
  {
    if n == 0 {
      s := 1;
      EuclidStart(x);
    } else {
      s := RowsAreEuclid(x, n - 1);
      var p := Rows(x, n - 1);
      if p.newR != 0 {
        EuclidStep(p.t, p.newT, p.r, p.newR, s, x, p.r / p.newR);
        s := -s;
      }
    }
  }

  lemma RowBounds(x: int, n: nat)
    requires 0 <= x < 257
    ensures var row := Rows(x, n); 0 <= row.newR < row.r <= 257 && -257 < row.t < 257 && -257 <= row.newT <= 257
  {
    var s := RowsAreEuclid(x, n);
  }

  lemma LastRow(x: int, n: nat)
    requires 0 <= x < 257 && Rows(x, n).newR == 0
    ensures var row := Rows(x, n);
            && (x == 0 ==> row.r != 1)
            && (x != 0 ==> row.r == 1 && Inv(x) == if row.t < 0 then row.t + 257 else row.t)
  {
    var s := RowsAreEuclid(x, n);
    var row := Rows(x, n);
    EuclidEnd(row.t, row.newT, row.r, s, x);
  }

  ghost predicate Euclid(t: int, newT: int, r: int, newR: int, s: int, x: int) {
    r <= 257 && (r == 257 ==> newR == x)
    && -257 < t < 257 && -257 <= newT <= 257
    && Determinant(t, newT, r, newR, s)
    && Cong(t * x, r) && Cong(newT * x, newR)
  }

  lemma EuclidStart(x: int)
    requires 0 <= x < 257
    ensures Euclid(0, 1, 257, x, 1, x)
  {
    CongIff(0 * x, 257);
    CongIff(1 * x, x);
  }

  lemma EuclidStep(t: int, newT: int, r: int, newR: int, s: int, x: int, q: int)
    requires 0 < newR < r && q == r / newR && Euclid(t, newT, r, newR, s, x)
    ensures 0 <= r - q * newR < newR
    ensures Euclid(newT, t - q * newT, newR, r - q * newR, -s, x)
  {
    RemainderStep(r, newR, q);
    DeterminantStep(t, newT, r, newR, s, q);
    EuclidCong(t, newT, r, newR, x, q);
  }

  lemma EuclidEnd(t: int, newT: int, r: int, s: int, x: int)
    requires 0 < r && 0 <= x < 257 && Euclid(t, newT, r, 0, s, x)
    ensures x == 0 ==> r != 1
    ensures x != 0 ==> r == 1 && Inv(x) == if t < 0 then t + 257 else t
  {
    LastRemainder(t, newT, r, s);
    if x == 0 {
      assert t * x == 0;
      CongIff(0, r);
    } else if t < 0 {
      ShiftByPrime(t, x);
      InvUnique(x, t + 257);
    } else {
      CommuteCong(t, x);
      InvUnique(x, t);
    }
  }

  /** The coefficients alternate in sign and their determinant with the remainders is 257. */
  ghost predicate Determinant(t: int, newT: int, r: int, newR: int, s: int) {
    (s == 1 && newT >= 0 >= t && newT * r - t * newR == 257)
    || (s == -1 && newT <= 0 <= t && t * newR - newT * r == 257)
  }

  lemma RemainderStep(r: int, newR: int, q: int)
    requires 0 < newR < r && q == r / newR
    ensures q >= 1 && 0 <= r - q * newR < newR
  {
    assert r == newR * q + r % newR;
  }

  lemma DeterminantStep(t: int, newT: int, r: int, newR: int, s: int, q: int)
    requires 0 < newR < r && q >= 1 && 0 <= r - q * newR < newR
    requires Determinant(t, newT, r, newR, s)
    ensures Determinant(newT, t - q * newT, newR, r - q * newR, -s)
    ensures -257 < newT < 257 && -257 <= t - q * newT <= 257
  {
    if s == 1 {
      PositiveStep(newT, -t, r, newR, q);
    } else {
      PositiveStep(-newT, t, r, newR, q);
    }
  }

  lemma PositiveStep(a: int, b: int, r: int, newR: int, q: int)
    requires a >= 0 && b >= 0 && 0 < newR < r && q >= 1 && r - q * newR >= 0
    requires a * r + b * newR == 257
    ensures (b + q * a) * newR + a * (r - q * newR) == 257
    ensures a < 257 && 0 <= b + q * a <= 257
  {
    assert (b + q * a) * newR == b * newR + a * (q * newR);
    assert a * (r - q * newR) == a * r - a * (q * newR);
    MulPos(q, a);
    MulPos(a, r - q * newR);
    Grow(b + q * a, newR);
    MulPos(b, newR);
    MulPos(a, r - 2);
    assert a * r == a * (r - 2) + 2 * a;
  }

  lemma Grow(u: int, n: int)
    requires u >= 0 && n >= 1
    ensures u <= u * n
  {
    MulPos(u, n - 1);
    assert u * n == u * (n - 1) + u;
  }

  lemma MulPos(a: int, b: int)
    requires a >= 0 && b >= 0
    ensures a * b >= 0
  {
  }

  lemma ShiftByPrime(t: int, x: int)
    requires Cong(t * x, 1)
    ensures Cong(x * (t + 257), 1)
  {
    assert x * (t + 257) == t * x + 257 * x;
    Witness(x * (t + 257), t * x, x);
    CongTrans(x * (t + 257), t * x, 1);
  }

  lemma CommuteCong(t: int, x: int)
    requires Cong(t * x, 1)
    ensures Cong(x * t, 1)
  {
    assert x * t == t * x;
  }

  lemma EuclidCong(t: int, newT: int, r: int, newR: int, x: int, q: int)
    requires Cong(t * x, r) && Cong(newT * x, newR)
    ensures Cong((t - q * newT) * x, r - q * newR)
  {
    CongMul(newT * x, newR, q);
    CongSub(t * x, r, q * (newT * x), q * newR);
    assert (t - q * newT) * x == t * x - q * (newT * x);
  }

  /** The last nonzero remainder divides 257. */
  lemma LastRemainder(t: int, newT: int, r: int, s: int)
    requires 0 < r <= 257 && Determinant(t, newT, r, 0, s)
    ensures r == 1 || r == 257
  {
    if 1 < r < 257 {
      Prime(r);
      ExactDivision(s * newT, r);
    }
  }

  lemma ExactDivision(k: int, r: int)
    requires r > 0
    ensures (k * r) % r == 0
  {
    var q, m := (k * r) / r, (k * r) % r;
    assert r * (k - q) == m;
    if k - q >= 1 {
      MulPos(r, k - q - 1);
    } else if k - q <= -1 {
      MulPos(r, q - k - 1);
    }
  }

  /** The polynomial c, with one coefficient per point, passes through the points. */
  ghost predicate Fits(c: seq<int>, xs: seq<int>, ys: seq<int>) {
    |c| == |xs| == |ys| && forall i :: 0 <= i < |xs| ==> Cong(Eval(c, xs[i]), ys[i])
  }

  lemma InterpolantExists(xs: seq<int>, ys: seq<int>)
    requires |xs| == |ys| && DistinctResidues(xs)
    ensures exists c :: Fits(c, xs, ys)
  {
    var zs := Weights(xs, ys);
    WeightsAreWeighted(xs, ys);
    var c := LagrangePoly(xs, zs, |xs|);
    forall i | 0 <= i < |xs|
      ensures Cong(Eval(c, xs[i]), ys[i])
    {
      LagrangePolyAtPoint(xs, ys, zs, i);
    }
    assert Fits(c, xs, ys);
  }

  /** The value at 0 of the polynomial through the points. */
  ghost function Origin(xs: seq<int>, ys: seq<int>): (v: element)
    requires 1 <= |xs| == |ys| && DistinctResidues(xs)
  {
    InterpolantExists(xs, ys);
    var c :| Fits(c, xs, ys);
    c[0] % 257
  }

  lemma OriginUnique(c: seq<int>, xs: seq<int>, ys: seq<int>)
    requires 1 <= |xs| && DistinctResidues(xs) && Fits(c, xs, ys)
    ensures Origin(xs, ys) == c[0] % 257
  {
    var d :| Fits(d, xs, ys) && Origin(xs, ys) == d[0] % 257;
    assert Fits(d, xs, ys);
    forall i | 0 <= i < |xs|
      ensures Cong(Eval(c, xs[i]), Eval(d, xs[i]))
    {
      CongSym(Eval(d, xs[i]), ys[i]);
      CongTrans(Eval(c, xs[i]), ys[i], Eval(d, xs[i]));
    }
    AgreeOnPoints(c, d, xs);
    CongIff(c[0], d[0]);
  }

  function Xs(points: seq<(byte, element)>): seq<int> {
    seq(|points|, i requires 0 <= i < |points| => points[i].0)
  }

  function Ys(points: seq<(byte, element)>): seq<int> {
    seq(|points|, i requires 0 <= i < |points| => points[i].1)
  }

  /**
   Lagrange interpolation at 0. For distinct points this is the value of the polynomial through them; for
   repeated points it is the sum of the terms all the same, those of repeated points being 0.
   */
  method GfLagrangeOrigin(points: seq<(byte, element)>) returns (out: element)
    ensures out == Lagrange(Xs(points), Weights(Xs(points), Ys(points)), |points|, 0) % 257
    ensures points != [] && DistinctResidues(Xs(points)) ==> out == Origin(Xs(points), Ys(points))
  {
    ghost var xs, ys := Xs(points), Ys(points);
    ghost var zs := Weights(xs, ys);
    out := 0;
    var i := 0;
    while i < |points|
      invariant 0 <= i <= |points|
      invariant out == Lagrange(xs, zs, i, 0) % 257
    {
      var term := LagrangeTerm(points, i);
      SumStep(xs, zs, i, out, term);
      out := (out + term) % 257;
      i := i + 1;
    }
    out := out % 257;
    OriginIfDistinct(xs, ys);
  }

  lemma OriginIfDistinct(xs: seq<int>, ys: seq<int>)
    requires |xs| == |ys|
    ensures xs != [] && DistinctResidues(xs) ==> Origin(xs, ys) == Lagrange(xs, Weights(xs, ys), |xs|, 0) % 257
  {
    if xs != [] && DistinctResidues(xs) {
      OriginByLagrange(xs, ys);
    }
  }

  /** The i-th value times the i-th basis polynomial at 0. */
  method LagrangeTerm(points: seq<(byte, element)>, i: nat) returns (term: int)
    requires i < |points|
    ensures Cong(term, Weights(Xs(points), Ys(points))[i] * Others(0, Xs(points), i, |points|))
  {
    var num, den := LagrangeFactors(points, i);
    var inverse := GfInv(den);
    var lag := num * inverse % 257;
    CongMod(Others(0, Xs(points), i, |points|));
    TermStep(points[i].1, num, Others(0, Xs(points), i, |points|), inverse, lag);
    term := points[i].1 as int * lag;
  }

  /** The inner loop: numerator and denominator of the i-th basis polynomial at 0. */
  method LagrangeFactors(points: seq<(byte, element)>, i: nat) returns (num: int, den: int)
    requires i < |points|
    ensures num == Others(0, Xs(points), i, |points|) % 257
    ensures den == Others(points[i].0, Xs(points), i, |points|) % 257
  {
    num, den := 1, 1;
    var j := 0;
    while j < |points|
      invariant 0 <= j <= |points|
      invariant num == Others(0, Xs(points), i, j) % 257
      invariant den == Others(points[i].0, Xs(points), i, j) % 257
    {
      if i != j {
        var xi: int, xj: int := points[i].0, points[j].0;
        FactorsStep(num, den, Xs(points), i, j);
        num := num * (257 + (257 - xj % 257)) % 257 % 257;
        den := den * ((257 + xi - xj) % 257) % 257;
      }
      j := j + 1;
    }
  }

  lemma FactorsStep(num: int, den: int, xs: seq<int>, i: nat, j: nat)
    requires i < |xs| && j < |xs| && i != j
    requires num == Others(0, xs, i, j) % 257 && den == Others(xs[i], xs, i, j) % 257
    ensures num * (257 + (257 - xs[j] % 257)) % 257 % 257 == Others(0, xs, i, j + 1) % 257
    ensures den * ((257 + xs[i] - xs[j]) % 257) % 257 == Others(xs[i], xs, i, j + 1) % 257
  {
    CongIff(257 + (257 - xs[j] % 257), 0 - xs[j]);
    FactorStep(num, xs, 0, i, j, 257 + (257 - xs[j] % 257));
    CongIff((257 + xs[i] - xs[j]) % 257, xs[i] - xs[j]);
    FactorStep(den, xs, xs[i], i, j, (257 + xs[i] - xs[j]) % 257);
  }

  lemma FactorStep(acc: int, xs: seq<int>, x: int, i: nat, j: nat, factor: int)
    requires j < |xs| && i != j && acc == Others(x, xs, i, j) % 257 && Cong(factor, x - xs[j])
    ensures acc * factor % 257 == acc * factor % 257 % 257 == Others(x, xs, i, j + 1) % 257
  {
    var product := Others(x, xs, i, j);
    CongMod(product);
    CongMul2(acc, product, factor, x - xs[j]);
    CongIff(acc * factor, product * (x - xs[j]));
  }

  lemma SumStep(xs: seq<int>, zs: seq<int>, i: nat, out: int, term: int)
    requires i < |xs| == |zs| && out == Lagrange(xs, zs, i, 0) % 257
    requires Cong(term, zs[i] * Others(0, xs, i, |xs|))
    ensures (out + term) % 257 == Lagrange(xs, zs, i + 1, 0) % 257
  {
    var sum, exact := Lagrange(xs, zs, i, 0), zs[i] * Others(0, xs, i, |xs|);
    CongMod(sum);
    CongAdd(out, sum, term, exact);
    CongIff(out + term, sum + exact);
  }

  lemma TermStep(y: int, num: int, o: int, w: int, lag: int)
    requires Cong(num, o) && lag == num * w % 257
    ensures Cong(y * lag, y * w * o)
  {
    CongMod(num * w);
    CongMul(num, o, w);
    CongTrans(lag, num * w, o * w);
    CongMul(lag, o * w, y);
    assert y * w * o == y * (o * w);
  }

  lemma OriginByLagrange(xs: seq<int>, ys: seq<int>)
    requires 1 <= |xs| == |ys| && DistinctResidues(xs)
    ensures Origin(xs, ys) == Lagrange(xs, Weights(xs, ys), |xs|, 0) % 257
  {
    InterpolantExists(xs, ys);
    var c :| Fits(c, xs, ys);
    assert Origin(xs, ys) == c[0] % 257 by {
      OriginUnique(c, xs, ys);
    }
    var l := Lagrange(xs, Weights(xs, ys), |xs|, 0);
    assert Cong(l, c[0]) by {
      WeightsAreWeighted(xs, ys);
      InterpolationAtOrigin(c, xs, ys, Weights(xs, ys));
    }
    SameResidue(l, c[0]);
  }

  lemma SameResidue(a: int, b: int)
    requires Cong(a, b)
    ensures a % 257 == b % 257
  {
    CongIff(a, b);
  }

  // ---------- secrecy ----------

  /** Random coefficients that make a secret byte produce the given share values. */
  ghost predicate Explains(draws: seq<int>, secret: int, xs: seq<int>, ys: seq<int>) {
    |draws| == |xs| == |ys|
    && (forall k :: 0 <= k < |draws| ==> 0 <= draws[k] <= 256)
    && (forall i :: 0 <= i < |xs| ==> Eval([secret] + draws, xs[i]) % 257 == ys[i])
  }

  /**
   Fewer shares than the threshold exclude no secret: whatever values threshold - 1 shares hold and
   whatever the candidate secret, exactly one choice of the random coefficients produces them.
   */
  lemma ExactlyOneExplanation(secret: element, xs: seq<int>, ys: seq<int>) returns (draws: seq<int>)
    requires |xs| == |ys| && DistinctResidues([0] + xs)
    requires forall i :: 0 <= i < |ys| ==> 0 <= ys[i] <= 256
    ensures Explains(draws, secret, xs, ys)
    ensures forall other :: Explains(other, secret, xs, ys) ==> other == draws
  {
    InterpolantExists([0] + xs, [secret] + ys);
    var c :| Fits(c, [0] + xs, [secret] + ys);
    draws := seq(|xs|, k requires 0 <= k < |xs| => c[k + 1] % 257);
    ReducedFits(c, draws, secret, xs, ys);
    forall other | Explains(other, secret, xs, ys)
      ensures other == draws
    {
      ExplanationsAgree(other, draws, secret, xs, ys);
    }
  }

  lemma ReducedFits(c: seq<int>, draws: seq<int>, secret: element, xs: seq<int>, ys: seq<int>)
    requires |xs| == |ys| == |draws| && Fits(c, [0] + xs, [secret] + ys)
    requires forall i :: 0 <= i < |ys| ==> 0 <= ys[i] <= 256
    requires forall k :: 0 <= k < |xs| ==> draws[k] == c[k + 1] % 257
    ensures Explains(draws, secret, xs, ys)
  {
    var d, zxs, zys := [secret] + draws, [0] + xs, [secret] + ys;
    assert zxs[0] == 0 && zys[0] == secret && Eval(c, 0) == c[0];
    CongSym(c[0], secret);
    forall k | 0 <= k < |d|
      ensures Cong(d[k], c[k])
    {
      if k > 0 {
        assert d[k] == c[k] % 257;
        CongMod(c[k]);
      }
    }
    forall i | 0 <= i < |xs|
      ensures Eval(d, xs[i]) % 257 == ys[i]
    {
      assert zxs[i + 1] == xs[i] && zys[i + 1] == ys[i];
      SameValue(d, c, xs[i], ys[i]);
    }
  }

  lemma SameValue(d: seq<int>, c: seq<int>, x: int, y: element)
    requires |d| == |c| && (forall k :: 0 <= k < |d| ==> Cong(d[k], c[k])) && Cong(Eval(c, x), y)
    ensures Eval(d, x) % 257 == y
  {
    CongruentPolys(d, c, x);
    CongTrans(Eval(d, x), Eval(c, x), y);
    CongIff(Eval(d, x), y);
  }

  lemma {:induction false} CongruentPolys(c: seq<int>, d: seq<int>, x: int)
    requires |c| == |d| && forall k :: 0 <= k < |c| ==> Cong(c[k], d[k])
    ensures Cong(Eval(c, x), Eval(d, x))
  {
    if c == [] {
      CongIff(0, 0);
    } else {
      CongruentPolys(c[1..], d[1..], x);
      CongMul(Eval(c[1..], x), Eval(d[1..], x), x);
      CongAdd(c[0], d[0], x * Eval(c[1..], x), x * Eval(d[1..], x));
    }
  }

  lemma ExplanationsAgree(a: seq<int>, b: seq<int>, secret: int, xs: seq<int>, ys: seq<int>)
    requires DistinctResidues([0] + xs)
    requires Explains(a, secret, xs, ys) && Explains(b, secret, xs, ys)
    ensures a == b
  {
    var c, d, zxs := [secret] + a, [secret] + b, [0] + xs;
    forall i | 0 <= i < |zxs|
      ensures Cong(Eval(c, zxs[i]), Eval(d, zxs[i]))
    {
      if i > 0 {
        assert zxs[i] == xs[i - 1];
      } else {
        assert Eval(c, 0) == secret == Eval(d, 0);
      }
      CongIff(Eval(c, zxs[i]), Eval(d, zxs[i]));
    }
    AgreeOnPoints(c, d, zxs);
    forall k | 0 <= k < |a|
      ensures a[k] == b[k]
    {
      CongIff(c[k + 1], d[k + 1]);
    }
  }
}
