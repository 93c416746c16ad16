/** 64-bit words as numbers, with the shifts and masks the replay bitmap uses, and their bits. */
module Words {

  type word = w: int | 0 <= w < 0x1_0000_0000_0000_0000

  ghost predicate Bit(w: nat, i: nat) {
    if i == 0 then w % 2 == 1 else Bit(w / 2, i - 1)
  }

  function Pow2(n: nat): (p: nat)
    ensures p >= 1
  {
    if n == 0 then 1 else 2 * Pow2(n - 1)
  }

  /** `a | b`. */
  function Or(a: nat, b: nat): (r: nat)
    ensures a == 0 ==> r == b
    decreases a + b
  {
    if a == 0 then b
    else if b == 0 then a
    else 2 * Or(a / 2, b / 2) + if a % 2 == 1 || b % 2 == 1 then 1 else 0
  }

  /** `a & b`. */
  function And(a: nat, b: nat): nat
    decreases a
  {
    if a == 0 || b == 0 then 0
    else 2 * And(a / 2, b / 2) + if a % 2 == 1 && b % 2 == 1 then 1 else 0
  }

  /** `w << s` in 64 bits, one place at a time. */
  function Shl(w: word, s: nat): word
    decreases s
  {
    if s == 0 then w else Shl(2 * w % 0x1_0000_0000_0000_0000, s - 1)
  }

  /** `w >> s`. */
  function Shr(w: word, s: nat): word {
    if s == 0 then w else Shr(w / 2, s - 1)
  }

  lemma {:induction false} BitZero(i: nat)
    ensures !Bit(0, i)
  {
    if i > 0 {
      BitZero(i - 1);
    }
  }

  lemma {:induction false} BitOr(a: nat, b: nat, i: nat)
    ensures Bit(Or(a, b), i) <==> Bit(a, i) || Bit(b, i)
  {
    if a == 0 || b == 0 {
      BitZero(i);
    } else {
      OrHalf(a, b);
      if i > 0 {
        BitOr(a / 2, b / 2, i - 1);
      }
    }
  }

  lemma OrHalf(a: nat, b: nat)
    requires a != 0 && b != 0
    ensures Or(a, b) / 2 == Or(a / 2, b / 2)
    ensures Or(a, b) % 2 == 1 <==> a % 2 == 1 || b % 2 == 1
  {
  }

  lemma {:induction false} OrBound(a: nat, b: nat, n: nat)
    requires a < Pow2(n) && b < Pow2(n)
    ensures Or(a, b) < Pow2(n)
  {
    if a != 0 && b != 0 && n > 0 {
      OrBound(a / 2, b / 2, n - 1);
    }
  }

  lemma {:induction false} BitHigh(w: nat, n: nat, i: nat)
    requires w < Pow2(n) && i >= n
    ensures !Bit(w, i)
  {
    if n == 0 {
      BitZero(i);
    } else {
      BitHigh(w / 2, n - 1, i - 1);
    }
  }

  lemma {:induction false} BitMask(i: nat, j: nat)
    ensures Bit(Pow2(i), j) <==> i == j
  {
    if j == 0 {
    } else if i == 0 {
      BitZero(j - 1);
    } else {
      assert Pow2(i) / 2 == Pow2(i - 1);
      BitMask(i - 1, j - 1);
    }
  }

  /** The test `w & (1 << i) != 0` reads bit i. */
  lemma {:induction false} TestMask(w: nat, i: nat)
    ensures And(w, Pow2(i)) != 0 <==> Bit(w, i)
  {
    if w == 0 {
      BitZero(i);
    } else if i == 0 {
      assert And(w / 2, 0) == 0;
    } else {
      assert Pow2(i) / 2 == Pow2(i - 1);
      TestMask(w / 2, i - 1);
    }
  }

  lemma {:induction false} BitTruncated(x: nat, n: nat, j: nat)
    requires j < n
    ensures Bit(x % Pow2(n), j) <==> Bit(x, j)
  {
    HalfOfRemainder(x, Pow2(n - 1));
    if j > 0 {
      BitTruncated(x / 2, n - 1, j - 1);
    }
  }

  lemma HalfOfRemainder(x: nat, p: nat)
    requires p >= 1
    ensures x % (2 * p) / 2 == x / 2 % p && x % (2 * p) % 2 == x % 2
  {
    var q, r := x / 2 / p, x / 2 % p;
    assert x / 2 == p * q + r;
    assert x == (2 * p) * q + (2 * r + x % 2);
    Remainder(x, 2 * p, q, 2 * r + x % 2);
  }

  lemma Remainder(x: nat, d: nat, q: nat, r: nat)
    requires d >= 1 && r < d && x == d * q + r
    ensures x % d == r
  {
    var q', r' := x / d, x % d;
    assert d * (q - q') == r' - r;
    NonzeroMultiple(d, q - q');
  }

  lemma NonzeroMultiple(d: int, k: int)
    requires d >= 0
    ensures k == 0 || d * k >= d || d * k <= -d
  {
    if k > 0 {
      Product(d, k - 1);
      assert d * k == d * (k - 1) + d;
    } else if k < 0 {
      Product(d, -k - 1);
      assert d * k == -(d * (-k - 1)) - d;
    }
  }

  lemma Product(a: int, b: int)
    requires a >= 0 && b >= 0
    ensures a * b >= 0
  {
  }

  lemma Pow64()
    ensures Pow2(64) == 0x1_0000_0000_0000_0000
  {
    assert Pow2(4) == 16;
    Squared(4, 16);
    Squared(8, 0x100);
    Squared(16, 0x1_0000);
    Squared(32, 0x1_0000_0000);
  }

  lemma Squared(n: nat, p: nat)
    requires Pow2(n) == p
    ensures Pow2(2 * n) == p * p
  {
    Pow2Sum(n, n);
  }

  lemma {:induction false} Pow2Sum(a: nat, b: nat)
    ensures Pow2(a + b) == Pow2(a) * Pow2(b)
  {
    if a > 0 {
      Pow2Sum(a - 1, b);
      assert 2 * (Pow2(a - 1) * Pow2(b)) == 2 * Pow2(a - 1) * Pow2(b);
    }
  }

  lemma {:induction false} Pow2Grows(a: nat, b: nat)
    requires a < b
    ensures Pow2(a) < Pow2(b)
  {
    if a < b - 1 {
      Pow2Grows(a, b - 1);
    }
  }

  lemma {:induction false} BitShl(w: word, s: nat, j: nat)
    requires j < 64
    ensures Bit(Shl(w, s), j) <==> j >= s && Bit(w, j - s)
    decreases s
  {
    if s > 0 {
      var doubled := 2 * w % 0x1_0000_0000_0000_0000;
      BitShl(doubled, s - 1, j);
      if j >= s - 1 {
        Pow64();
        BitTruncated(2 * w, 64, j - (s - 1));
        assert 2 * w / 2 == w;
      }
    }
  }

  lemma {:induction false} BitShr(w: word, s: nat, j: nat)
    ensures Bit(Shr(w, s), j) <==> Bit(w, j + s)
  {
    if s > 0 {
      BitShr(w / 2, s - 1, j);
    }
  }
}
