/** Byte strings and the fixed-width big-endian integers the wire formats use. */
module ByteCodec {
  import opened Prelude

  type Bytes = seq<byte>

  /** The n lowest big-endian base-256 digits of a number. */
  function BigEndian(value: nat, n: nat): (b: Bytes)
    ensures |b| == n
  {
    if n == 0 then [] else BigEndian(value / 256, n - 1) + [value % 256]
  }

  function FromBigEndian(b: Bytes): nat {
    if b == [] then 0 else 256 * FromBigEndian(b[..|b| - 1]) + b[|b| - 1]
  }

  function Pow256(n: nat): (p: nat)
    ensures p >= 1
  {
    if n == 0 then 1 else 256 * Pow256(n - 1)
  }

  lemma {:induction false} BigEndianRoundTrip(value: nat, n: nat)
    requires value < Pow256(n)
    ensures FromBigEndian(BigEndian(value, n)) == value
  {
    if n > 0 {
      BigEndianRoundTrip(value / 256, n - 1);
      var b := BigEndian(value, n);
      assert b[..|b| - 1] == BigEndian(value / 256, n - 1);
    }
  }

  lemma {:induction false} FromBigEndianBound(b: Bytes)
    ensures FromBigEndian(b) < Pow256(|b|)
  {
    if b != [] {
      FromBigEndianBound(b[..|b| - 1]);
    }
  }

  /** Every byte string is the encoding of the number it reads as. */
  lemma {:induction false} FromBigEndianRoundTrip(b: Bytes)
    ensures BigEndian(FromBigEndian(b), |b|) == b
  {
    if b != [] {
      var n := |b| - 1;
      FromBigEndianRoundTrip(b[..n]);
      assert FromBigEndian(b) / 256 == FromBigEndian(b[..n]) && FromBigEndian(b) % 256 == b[n];
      assert b == b[..n] + [b[n]];
    }
  }

  /** The most significant byte comes first. */
  lemma {:induction false} BigEndianDigit(value: nat, n: nat, i: nat)
    requires i < n
    ensures BigEndian(value, n)[i] == value / Pow256(n - 1 - i) % 256
  {
    if i < n - 1 {
      BigEndianDigit(value / 256, n - 1, i);
      DivideTwice(value, Pow256(n - 2 - i));
    }
  }

  lemma DivideTwice(value: nat, p: nat)
    requires p >= 1
    ensures value / 256 / p == value / (256 * p)
  {
    var q, r := value / 256, value % 256;
    var a, b := q / p, q % p;
    assert q == p * a + b && value == 256 * q + r;
    assert value == 256 * p * a + (256 * b + r);
    Quotient(value, 256 * p, a, 256 * b + r);
  }

  lemma Quotient(x: nat, d: nat, q: nat, r: nat)
    requires r < d && x == d * q + r
    ensures x / d == q
  {
    var q' := x / d;
    assert x == d * q' + x % d;
    if q' < q {
      MultipleGap(d, q', q);
    } else if q < q' {
      MultipleGap(d, q, q');
    }
  }

  lemma {:induction false} MultipleGap(d: nat, a: nat, b: nat)
    requires a < b
    ensures d * a + d <= d * b
  {
    assert d * b == d * (b - 1) + d;
    if a < b - 1 {
      MultipleGap(d, a, b - 1);
    }
  }

  lemma EightBytes()
    ensures Pow256(8) == 0x1_0000_0000_0000_0000
  {
    assert Pow256(4) == 0x1_0000_0000;
  }

  /** Fixed-width big-endian encoding loses nothing. */
  lemma BigEndianInjective(a: nat, b: nat, n: nat)
    requires a < Pow256(n) && b < Pow256(n) && BigEndian(a, n) == BigEndian(b, n)
    ensures a == b
  {
    BigEndianRoundTrip(a, n);
    BigEndianRoundTrip(b, n);
  }

  function Ascii(s: string): (b: Bytes)
    ensures |b| == |s|
  {
    seq(|s|, i requires 0 <= i < |s| => s[i] as int % 256)
  }

  /** Two concatenations with equally long first parts agree only part by part. */
  lemma SplitEqual(a: Bytes, b: Bytes, c: Bytes, d: Bytes)
    requires a + b == c + d && |a| == |c|
    ensures a == c && b == d
  {
    assert a == (a + b)[..|a|] && c == (c + d)[..|a|];
    assert b == (a + b)[|a|..] && d == (c + d)[|a|..];
  }
}
