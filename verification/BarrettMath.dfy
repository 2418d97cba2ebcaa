/** The integer side of Barrett reduction (HAC Algorithm 14.42) with a truncated middle product. */
module BarrettMath {
  import opened Word
  import opened Limbs
  import opened Columns
  import opened BnMultiply

  /** The quotient estimate, from a middle product that may be short by `loss`. */
  ghost predicate Estimate(x: int, m: int, k: nat, u: int, q1: int, q2: int, q3: int, loss: int) {
    && k > 0 && 0 <= x < Pow(2 * k) && Pow(k - 1) < m < Pow(k)
    && u == Pow(2 * k) / m
    && q1 == x / Pow(k - 1)
    && q2 == q1 * u - loss && 0 <= loss < Pow(k + 1) && q2 >= 0
    && q3 == q2 / Pow(k + 1)
  }

  lemma DivBounds(a: int, b: int)
    requires a >= 0 && b > 0
    ensures 0 <= a / b
    ensures (a / b) * b <= a < (a / b) * b + b
  {
    assert a == (a / b) * b + a % b;
    if a / b < 0 {
      MulLe(a / b, -1, b);
    }
  }

  /** x / y < z when x < z y. */
  lemma QuotientLess(a: int, b: int, c: int)
    requires a >= 0 && b > 0 && a < c * b
    ensures a / b < c
  {
    DivBounds(a, b);
    if a / b >= c {
      MulLe(c, a / b, b);
    }
  }

  /** The estimate is never too large and at most three too small. */
  lemma EstimateClose(x: int, m: int, k: nat, u: int, q1: int, q2: int, q3: int, loss: int)
    requires Estimate(x, m, k, u, q1, q2, q3, loss)
    ensures 0 <= q3
    ensures 0 <= x - q3 * m < 4 * m
    ensures 0 <= q1 < Pow(k + 1) && 0 <= u < Pow(k + 1)
  {
    var d, p, e := Pow(k - 1), Pow(k + 1), Pow(2 * k);
    PowSplit(2 * k, k + 1);
    DivBounds(x, d);
    DivBounds(e, m);
    DivBounds(q2, p);
    SmallFactors(x, m, d, p, e, q1, u);
    NotTooLarge(x, m, d, p, e, q1, u, q2, q3);
    NotTooSmall(x, m, d, p, e, q1, u, q2, q3, loss);
  }

  lemma SmallFactors(x: int, m: int, d: int, p: int, e: int, q1: int, u: int)
    requires d > 0 && p > 0 && e == p * d && m > d && 0 <= x < e
    requires 0 <= q1 && q1 * d <= x && 0 <= u && u * m <= e
    ensures q1 < p && u < p
  {
    if q1 >= p {
      MulLe(p, q1, d);
    }
    if u >= p {
      MulLe(p, u, m);
      MulLe(d + 1, m, p);
    }
  }

  lemma NotTooLarge(x: int, m: int, d: int, p: int, e: int, q1: int, u: int, q2: int, q3: int)
    requires d > 0 && p > 0 && e == p * d && m > 0
    requires 0 <= q1 && 0 <= q3 && q1 * d <= x && 0 <= u && u * m <= e && q2 <= q1 * u && q3 * p <= q2
    ensures q3 * m <= x
  {
    assert (q3 * m) * e <= x * e by {
      assert (q3 * m) * e == (q3 * p) * (m * d);
      MulLe(0, d, m);
      MulLe(q3 * p, q1 * u, m * d);
      assert (q1 * u) * (m * d) == (q1 * d) * (u * m);
      MulLe(0, q1, d);
      MulLe(u * m, e, q1 * d);
      MulLe(q1 * d, x, e);
    }
    if q3 * m > x {
      MulLe(x + 1, q3 * m, e);
      DistributeSum(x, 1, e);
    }
  }

  lemma NotTooSmall(x: int, m: int, d: int, p: int, e: int, q1: int, u: int, q2: int, q3: int, loss: int)
    requires d > 0 && p > 0 && e == p * d && m > 0 && x >= 0 && q3 >= 0
    requires 0 <= q1 < p && x < q1 * d + d && 0 <= u < p && e < u * m + m
    requires q2 == q1 * u - loss && 0 <= loss < p && q2 < q3 * p + p
    ensures x < q3 * m + 4 * m
  {
    var s, t := (q1 + 1) * (u + 1), q3 + 4;
    assert s < t * p by {
      assert s == q1 * u + q1 + u + 1;
      DistributeSum(q3, 4, p);
    }
    assert x * e <= s * (d * m) by { ProductBelow(x, q1 + 1, d, e, u + 1, m); }
    assert s * (d * m) < (t * m) * e by { ScaledBelow(s, t, p, d, m, e); }
    if x >= t * m {
      MulLe(t * m, x, e);
    }
    DistributeSum(q3, 4, m);
  }

  lemma ProductBelow(x: int, a: int, d: int, e: int, b: int, m: int)
    requires 0 <= x < a * d && 0 <= e < b * m && a >= 0 && d >= 0
    ensures x * e <= (a * b) * (d * m)
  {
    MulLe(x, a * d, e);
    MulLe(e, b * m, a * d);
    assert (b * m) * (a * d) == (a * b) * (d * m);
  }

  lemma ScaledBelow(s: int, t: int, p: int, d: int, m: int, e: int)
    requires s < t * p && d > 0 && m > 0 && e == p * d
    ensures s * (d * m) < (t * m) * e
  {
    MulLe(1, d, m);
    MulLe(s + 1, t * p, d * m);
    DistributeSum(s, 1, d * m);
    assert (t * p) * (d * m) == (t * m) * (p * d);
  }

  /** When the estimate is exact on multiples of the modulus: the modulus divides B^2k, and B^(k-1) divides x. */
  ghost predicate NothingRounded(x: int, m: int, k: nat)
    requires k > 0 && m > 0
  {
    Pow(2 * k) % m == 0 && x % Pow(k - 1) == 0
  }

  lemma ExactOnMultiples(x: int, m: int, k: nat, u: int, q1: int, q2: int, q3: int, loss: int)
    requires Estimate(x, m, k, u, q1, q2, q3, loss) && x > 0 && x % m == 0
    requires NothingRounded(x, m, k) ==> loss == 0
    ensures q3 * m == x <==> NothingRounded(x, m, k)
  {
    var d, p, e := Pow(k - 1), Pow(k + 1), Pow(2 * k);
    PowSplit(2 * k, k + 1);
    EstimateClose(x, m, k, u, q1, q2, q3, loss);
    DivBounds(x, d);
    DivBounds(e, m);
    DivBounds(q2, p);
    if q3 * m == x {
      RoundingLeavesGap(x, m, d, p, e, q1, u, q2, q3);
      DivModUnique(x, d, q1, 0);
      DivModUnique(e, m, u, 0);
    } else if NothingRounded(x, m, k) {
      ExactHit(x, m, d, p, e, q1, u, q2);
    }
  }

  lemma ExactHit(x: int, m: int, d: int, p: int, e: int, q1: int, u: int, q2: int)
    requires d > 0 && m > 0 && p > 0 && e == p * d && x % m == 0 && x % d == 0 && e % m == 0
    requires q1 == x / d && u == e / m && q2 == q1 * u
    ensures q2 / p * m == x
  {
    var c := x / m;
    assert x == c * m && x == q1 * d && e == u * m;
    ExactProduct(x, m, d, p, e, q1, u, c);
    DivModUnique(q2, p, c, 0);
  }

  /** If the estimate hits x exactly then neither division rounded. */
  lemma RoundingLeavesGap(x: int, m: int, d: int, p: int, e: int, q1: int, u: int, q2: int, q3: int)
    requires d > 0 && p > 0 && e == p * d && m > 0 && x > 0
    requires 0 <= q1 && q1 * d <= x && 0 <= u && u * m <= e && q2 <= q1 * u && q3 * p <= q2
    requires q3 * m == x
    ensures q1 * d == x && u * m == e
  {
    MulLe(0, q1, d);
    MulLe(0, u, m);
    MulLe(1, d, p);
    HitNeedsProduct(x, m, d, p, e, q1, u, q2, q3);
    BothTight(q1 * d, u * m, x, e);
  }

  lemma HitNeedsProduct(x: int, m: int, d: int, p: int, e: int, q1: int, u: int, q2: int, q3: int)
    requires d > 0 && m > 0 && e == p * d && q2 <= q1 * u && q3 * p <= q2 && q3 * m == x
    ensures x * e <= (q1 * d) * (u * m)
  {
    assert (q3 * m) * (p * d) == (q3 * p) * (m * d);
    MulLe(1, d, m);
    MulLe(q3 * p, q1 * u, m * d);
    assert (q1 * u) * (m * d) == (q1 * d) * (u * m);
  }

  lemma BothTight(a: int, b: int, x: int, e: int)
    requires 0 <= a <= x && 0 <= b <= e && x > 0 && e > 0 && x * e <= a * b
    ensures a == x && b == e
  {
    MulLe(b, e, a);
    if a < x {
      MulLe(a + 1, x, e);
      DistributeSum(a, 1, e);
    }
    if b < e {
      MulLe(b + 1, e, x);
      MulLe(a, x, b);
      DistributeSum(b, 1, x);
    }
  }

  lemma ExactProduct(x: int, m: int, d: int, p: int, e: int, q1: int, u: int, c: int)
    requires d > 0 && m > 0 && e == p * d && x == c * m && x == q1 * d && e == u * m
    ensures q1 * u == c * p
  {
    assert (q1 * u) * (m * d) == (q1 * d) * (u * m);
    assert (c * p) * (m * d) == (c * m) * (p * d);
    MulLe(1, d, m);
    SameFactor(q1 * u, c * p, m * d);
  }

  lemma SameFactor(a: int, b: int, f: int)
    requires f > 0 && a * f == b * f
    ensures a == b
  {
    if a < b {
      MulLe(a + 1, b, f);
      DistributeSum(a, 1, f);
    }
    if b < a {
      MulLe(b + 1, a, f);
      DistributeSum(b, 1, f);
    }
  }

  /** A cofactor of 2^n against a factor below 2^a contains 2^(n-a). */
  lemma {:induction false} CofactorOfPower(u: int, m: int, n: nat, a: nat) returns (v: int)
    requires u > 0 && 0 < m < Pow2(a) && a <= n && u * m == Pow2(n)
    ensures u == v * Pow2(n - a)
  {
    if n == a {
      v := u;
    } else if m % 2 == 0 {
      var h := m / 2;
      assert m == 2 * h;
      assert u * (2 * h) == 2 * (u * h);
      assert a > 0;
      v := CofactorOfPower(u, h, n - 1, a - 1);
    } else {
      OddFactor(u, m, Pow2(n - 1));
      var h := u / 2;
      assert u == 2 * h;
      assert (2 * h) * m == 2 * (h * m);
      v := CofactorOfPower(h, m, n - 1, a);
      assert Pow2(n - a) == 2 * Pow2(n - 1 - a);
      assert 2 * (v * Pow2(n - 1 - a)) == v * (2 * Pow2(n - 1 - a));
    }
  }

  lemma OddFactor(u: int, m: int, h: int)
    requires m % 2 == 1 && u * m == 2 * h
    ensures u % 2 == 0
  {
    var j := m / 2;
    assert m == 2 * j + 1;
    assert u * (2 * j + 1) == 2 * (u * j) + u;
  }

  /** If the modulus divides B^2k then the reciprocal has no limbs below k. */
  lemma ReciprocalAligned(m: int, k: nat, us: seq<uint32>, used: nat)
    requires k > 0 && 0 < m < Pow(k) && Pow(2 * k) % m == 0
    requires k <= used <= |us| && Proper(us, used) && Val(us, used) == Pow(2 * k) / m
    ensures ZeroFrom(us, 0, k)
  {
    var u := Val(us, used);
    assert u * m == Pow(2 * k);
    if u <= 0 {
      MulLe(u, 0, m);
    }
    Pow2Limbs(2 * k, 0);
    Pow2Limbs(k, 0);
    var v := CofactorOfPower(u, m, BN_BITS * (2 * k), BN_BITS * k);
    assert BN_BITS * (2 * k) - BN_BITS * k == BN_BITS * k;
    DivModUnique(u, Pow(k), v, 0);
    ValDivMod(us, k, used);
    ZeroValue(us, k);
  }

  lemma {:induction false} ZeroValue(s: seq<uint32>, n: nat)
    requires n <= |s| && Val(s, n) == 0
    ensures ZeroFrom(s, 0, n)
  {
    if n > 0 {
      MulLe(0, s[n - 1], Pow(n - 1));
      if s[n - 1] > 0 {
        MulLe(1, s[n - 1], Pow(n - 1));
      }
      ZeroValue(s, n - 1);
    }
  }

  /** Columns below the lowest limb in use are empty. */
  lemma {:induction false} EmptyColumn(x: seq<uint32>, n: nat, y: seq<uint32>, m: nat, c: nat)
    requires n <= |x| && m <= |y|
    requires forall i :: 0 <= i < m && i <= c ==> y[i] == 0
    ensures Column(x, n, y, m, c) == 0
  {
    if n > 0 {
      EmptyColumn(x, n - 1, y, m, c);
    }
  }

  lemma {:induction false} EmptyLowColumns(x: seq<uint32>, n: nat, y: seq<uint32>, m: nat, k: nat)
    requires n <= |x| && m <= |y|
    requires forall i :: 0 <= i < m && i < k ==> y[i] == 0
    ensures LowColumns(x, n, y, m, k) == 0
  {
    if k > 0 {
      EmptyLowColumns(x, n, y, m, k - 1);
      EmptyColumn(x, n, y, m, k - 1);
    }
  }
}
