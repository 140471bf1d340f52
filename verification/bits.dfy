/** The integer bit operations the glyph cache relies on: powers of two, the
    index of the most significant bit, and bitwise `&`, on unbounded
    naturals. */
module Bits {

  function Pow2(k: nat): (r: nat)
    ensures r >= 1
  {
    if k == 0 then 1 else 2 * Pow2(k - 1)
  }

  /** `find_most_significant_bit(x).index` for `x > 0`: the exponent of the
      largest power of two not above `x`. */
  function Log2(x: nat): (r: nat)
    requires x >= 1
    ensures Pow2(r) <= x < Pow2(r + 1)
  {
    if x == 1 then 0
    else
      var r' := Log2(x / 2);
      assert Pow2(r' + 1) == 2 * Pow2(r');
      assert Pow2(r' + 2) == 2 * Pow2(r' + 1);
      1 + r'
  }

  /** `a & b`, one bit at a time from the lowest. */
  function And(a: nat, b: nat): (r: nat)
    ensures r <= a && r <= b
    decreases a
  {
    if a == 0 || b == 0 then 0
    else 2 * And(a / 2, b / 2) + (if a % 2 == 1 && b % 2 == 1 then 1 else 0)
  }

  /** Every power of two is even except the first. */
  lemma Pow2Halves(k: nat)
    requires k > 0
    ensures Pow2(k) == 2 * Pow2(k - 1) && (Pow2(k) - 1) / 2 == Pow2(k - 1) - 1
    ensures (Pow2(k) - 1) % 2 == 1
  {
  }

  /** Euclidean division is unique. */
  lemma DivModUnique(x: nat, d: nat, q: nat, r: nat)
    requires 0 <= r < d && x == q * d + r
    ensures x % d == r
  {
    var q' := x / d;
    assert q' * d + x % d == q * d + r;
    assert (q' - q) * d == q' * d - q * d;
    if q' != q {
      MulAtLeast(q' - q, d);
    }
  }

  /** A non-zero multiple of `d` is at least `d` away from zero. */
  lemma {:induction false} MulAtLeast(k: int, d: nat)
    requires k != 0
    ensures k * d >= d || k * d <= -(d as int)
    decreases if k > 0 then k else -k
  {
    if k > 1 {
      MulAtLeast(k - 1, d);
      assert k * d == (k - 1) * d + d;
    } else if k < -1 {
      MulAtLeast(k + 1, d);
      assert k * d == (k + 1) * d - d;
    }
  }

  /** Splitting off the lowest bit of a remainder by a power of two. */
  lemma ModDouble(x: nat, m: nat)
    requires m >= 1
    ensures x % (2 * m) == 2 * ((x / 2) % m) + x % 2
  {
    var q, r := (x / 2) / m, (x / 2) % m;
    assert x / 2 == q * m + r;
    assert x == 2 * (x / 2) + x % 2;
    assert x == q * (2 * m) + (2 * r + x % 2);
    DivModUnique(x, 2 * m, q, 2 * r + x % 2);
  }

  /** Masking with `2^k - 1` keeps the low `k` bits: `x & (2^k - 1)` is
      `x mod 2^k`. */
  lemma {:induction false} AndLowMask(x: nat, k: nat)
    ensures And(x, Pow2(k) - 1) == x % Pow2(k)
    decreases k, 1
  {
    if k > 0 && x > 0 {
      AndLowMaskStep(x, k);
    } else if k == 0 {
      assert Pow2(k) == 1 && And(x, 0) == 0;
      assert x % 1 == 0;
    } else {
      assert And(0, Pow2(k) - 1) == 0;
      assert 0 % Pow2(k) == 0;
    }
  }

  /** One bit of `AndLowMask`: the lowest bit passes the mask, the rest are
      masked one position down. */
  lemma {:induction false} AndLowMaskStep(x: nat, k: nat)
    requires k > 0 && x > 0
    ensures And(x, Pow2(k) - 1) == x % Pow2(k)
    decreases k, 0
  {
    var m, h := Pow2(k) - 1, Pow2(k - 1);
    AndLowMask(x / 2, k - 1);
    Pow2Halves(k);
    assert m / 2 == h - 1 && m % 2 == 1 && m != 0 && Pow2(k) == 2 * h;
    var low := if x % 2 == 1 then 1 else 0;
    assert low == x % 2;
    assert And(x, m) == 2 * And(x / 2, h - 1) + low;
    ModDouble(x, h);
  }

  /** Every value masked with itself is unchanged: `x & x == x`. */
  lemma {:induction false} AndSelf(x: nat)
    ensures And(x, x) == x
    decreases x
  {
    if x > 0 {
      AndSelf(x / 2);
      assert And(x, x) == 2 * And(x / 2, x / 2) + x % 2;
    }
  }

  /** The quotient of Euclidean division brackets the dividend, is at
      least 1 exactly when the divisor fits, and is no larger than the
      dividend. */
  lemma DivBounds(a: nat, b: nat)
    requires b >= 1
    ensures (a / b) * b <= a < (a / b) * b + b
    ensures a / b >= 1 <==> a >= b
    ensures a / b <= a
  {
    var q := a / b;
    assert a == q * b + a % b;
    MulGrows(q, b);
    if q >= 1 {
      MulGrows(b, q);
    }
  }

  /** Multiplying by a positive factor never shrinks. */
  lemma MulGrows(a: nat, m: nat)
    requires m >= 1
    ensures a * m >= a
  {
    assert a * m == a + a * (m - 1);
  }

  /** Multiplication distributes over a sum. */
  lemma MulDistributes(a: nat, b: nat, m: nat)
    ensures (a + b) * m == a * m + b * m
  {
  }
}
