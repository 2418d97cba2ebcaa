/** The schoolbook product, column by column. */
module Columns {
  import opened Word
  import opened Limbs

  /** The contribution of limb `i` of `x` to column `c` of the product with the `m` limbs of `y`. */
  function Term(x: seq<uint32>, y: seq<uint32>, m: nat, c: nat, i: nat): (t: int)
    requires i < |x| && m <= |y|
    ensures t >= 0
  {
    if i <= c && c - i < m then x[i] as int * y[c - i] as int else 0
  }

  /** Column `c`, restricted to the `n` lowest limbs of `x`. */
  function Column(x: seq<uint32>, n: nat, y: seq<uint32>, m: nat, c: nat): (t: int)
    requires n <= |x| && m <= |y|
    ensures t >= 0
  {
    if n == 0 then 0 else Column(x, n - 1, y, m, c) + Term(x, y, m, c, n - 1)
  }

  /** The value of the `k` lowest columns. */
  function LowColumns(x: seq<uint32>, n: nat, y: seq<uint32>, m: nat, k: nat): (t: int)
    requires n <= |x| && m <= |y|
    ensures t >= 0
  {
    if k == 0 then 0 else LowColumns(x, n, y, m, k - 1) + Column(x, n, y, m, k - 1) * Pow(k - 1)
  }

  /** One row of the product: limb `n` of `x` against all limbs of `y`, seen through `k` columns. */
  function Row(x: seq<uint32>, n: nat, y: seq<uint32>, m: nat, k: nat): int
    requires n < |x| && m <= |y|
  {
    if k == 0 then 0 else Row(x, n, y, m, k - 1) + Term(x, y, m, k - 1, n) * Pow(k - 1)
  }

  lemma {:induction false} RowValue(x: seq<uint32>, n: nat, y: seq<uint32>, m: nat, k: nat)
    requires n < |x| && m <= |y|
    ensures k <= n ==> Row(x, n, y, m, k) == 0
    ensures n <= k <= n + m ==> Row(x, n, y, m, k) == x[n] * Pow(n) * Val(y, k - n)
    ensures n + m <= k ==> Row(x, n, y, m, k) == x[n] * Pow(n) * Val(y, m)
  {
    if k > 0 {
      RowValue(x, n, y, m, k - 1);
      if n < k <= n + m {
        PowAdd(n, k - 1 - n);
        RowTerm(x[n], Pow(n), y[k - 1 - n], Pow(k - 1 - n), Val(y, k - 1 - n));
      }
    }
  }

  lemma RowTerm(a: int, p: int, b: int, q: int, v: int)
    ensures (a * b) * (p * q) + a * p * v == a * p * (v + b * q)
  {
    assert (a * b) * (p * q) == a * p * (b * q);
  }

  lemma {:induction false} ColumnsByRow(x: seq<uint32>, n: nat, y: seq<uint32>, m: nat, k: nat)
    requires n < |x| && m <= |y|
    ensures LowColumns(x, n + 1, y, m, k) == LowColumns(x, n, y, m, k) + Row(x, n, y, m, k)
  {
    if k > 0 {
      ColumnsByRow(x, n, y, m, k - 1);
      DistributeSum(Column(x, n, y, m, k - 1), Term(x, y, m, k - 1, n), Pow(k - 1));
    }
  }

  /** All columns together are the product. */
  lemma {:induction false} ColumnsAreProduct(x: seq<uint32>, n: nat, y: seq<uint32>, m: nat, k: nat)
    requires n <= |x| && m <= |y| && k >= n + m
    ensures LowColumns(x, n, y, m, k) == Val(x, n) * Val(y, m)
  {
    if n == 0 {
      NoColumns(x, y, m, k);
    } else {
      ColumnsAreProduct(x, n - 1, y, m, k);
      ColumnsByRow(x, n - 1, y, m, k);
      RowValue(x, n - 1, y, m, k);
      DistributeSum(Val(x, n - 1), x[n - 1] * Pow(n - 1), Val(y, m));
    }
  }

  lemma {:induction false} NoColumns(x: seq<uint32>, y: seq<uint32>, m: nat, k: nat)
    requires m <= |y|
    ensures LowColumns(x, 0, y, m, k) == 0
  {
    if k > 0 {
      NoColumns(x, y, m, k - 1);
    }
  }

  lemma {:induction false} ColumnCong(x: seq<uint32>, s: seq<uint32>, n: nat, y: seq<uint32>, t: seq<uint32>,
                                      m: nat, c: nat)
    requires n <= |x| && n <= |s| && m <= |y| && m <= |t|
    requires x[..n] == s[..n] && y[..m] == t[..m]
    ensures Column(x, n, y, m, c) == Column(s, n, t, m, c)
  {
    if n > 0 {
      assert x[..n - 1] == x[..n][..n - 1] && s[..n - 1] == s[..n][..n - 1];
      ColumnCong(x, s, n - 1, y, t, m, c);
      assert x[..n][n - 1] == s[..n][n - 1];
      if n - 1 <= c && c - (n - 1) < m {
        assert y[..m][c - (n - 1)] == t[..m][c - (n - 1)];
      }
    }
  }

  /** Only the limbs that are read matter. */
  lemma {:induction false} LowColumnsCong(x: seq<uint32>, s: seq<uint32>, n: nat, y: seq<uint32>, t: seq<uint32>,
                                          m: nat, k: nat)
    requires n <= |x| && n <= |s| && m <= |y| && m <= |t|
    requires x[..n] == s[..n] && y[..m] == t[..m]
    ensures LowColumns(x, n, y, m, k) == LowColumns(s, n, t, m, k)
  {
    if k > 0 {
      LowColumnsCong(x, s, n, y, t, m, k - 1);
      ColumnCong(x, s, n, y, t, m, k - 1);
    }
  }

  /** The columns from `k` on are worth a multiple of B^k. */
  lemma {:induction false} HighColumns(x: seq<uint32>, n: nat, y: seq<uint32>, m: nat, k: nat, l: nat) returns (q: int)
    requires n <= |x| && m <= |y| && k <= l
    ensures LowColumns(x, n, y, m, l) == LowColumns(x, n, y, m, k) + q * Pow(k)
    ensures q >= 0
    decreases l
  {
    if k == l {
      q := 0;
    } else {
      var q0 := HighColumns(x, n, y, m, k, l - 1);
      var c := Column(x, n, y, m, l - 1);
      q := q0 + c * Pow(l - 1 - k);
      PowAdd(k, l - 1 - k);
      HighTerm(q0, c, Pow(k), Pow(l - 1 - k));
    }
  }

  /** The product is its `k` low columns and a multiple of B^k. */
  lemma ProductAbove(x: seq<uint32>, n: nat, y: seq<uint32>, m: nat, k: nat) returns (q: int)
    requires n <= |x| && m <= |y|
    ensures Val(x, n) * Val(y, m) == LowColumns(x, n, y, m, k) + q * Pow(k)
    ensures q >= 0
  {
    q := HighColumns(x, n, y, m, k, k + n + m);
    ColumnsAreProduct(x, n, y, m, k + n + m);
  }

  lemma HighTerm(q: int, c: int, p: int, r: int)
    requires c >= 0 && r >= 0
    ensures (q + c * r) * p == q * p + c * (p * r)
    ensures c * r >= 0
  {
    assert (c * r) * p == c * (p * r);
  }

  const SQUARE: int := (BASE - 1) * (BASE - 1)

  /** A column of `n` digit products is at most n (B - 1)^2, and column `c` has at most c + 1 of them. */
  lemma {:induction false} ColumnBound(x: seq<uint32>, n: nat, y: seq<uint32>, m: nat, c: nat)
    requires n <= |x| && m <= |y| && Proper(x, n) && Proper(y, m)
    ensures Column(x, n, y, m, c) <= n * SQUARE
    ensures Column(x, n, y, m, c) <= (c + 1) * SQUARE
  {
    if n > 0 {
      ColumnBound(x, n - 1, y, m, c);
      if n - 1 <= c && c - (n - 1) < m {
        DigitProduct(x[n - 1], y[c - (n - 1)]);
        assert Column(x, n - 1, y, m, c) <= (n - 1) * SQUARE;
        MulLe(n, c + 1, SQUARE);
      }
      DistributeSum(n - 1, 1, SQUARE);
    }
  }

  lemma DigitProduct(a: int, b: int)
    requires 0 <= a < BASE && 0 <= b < BASE
    ensures 0 <= a * b <= SQUARE
  {
    MulLe(a, BASE - 1, b);
    MulLe(b, BASE - 1, BASE - 1);
    MulLe(0, a, b);
  }

  /** What is lost by leaving out the `k` lowest columns is less than k B^(k+1). */
  lemma {:induction false} LowColumnsBound(x: seq<uint32>, n: nat, y: seq<uint32>, m: nat, k: nat)
    requires n <= |x| && m <= |y| && Proper(x, n) && Proper(y, m)
    ensures LowColumns(x, n, y, m, k) <= k * ((BASE - 1) * (Pow(k) - 1))
    ensures k > 0 ==> LowColumns(x, n, y, m, k) < k * Pow(k + 1)
  {
    if k > 0 {
      LowColumnsBound(x, n, y, m, k - 1);
      ColumnBound(x, n, y, m, k - 1);
      LossStep(LowColumns(x, n, y, m, k - 1), Column(x, n, y, m, k - 1), k, Pow(k - 1));
    }
  }

  lemma LossStep(low: int, col: int, k: int, p: int)
    requires k > 0 && p > 0
    requires low <= (k - 1) * ((BASE - 1) * (p - 1)) && col <= k * SQUARE
    ensures low + col * p <= k * ((BASE - 1) * (BASE * p - 1))
    ensures k * ((BASE - 1) * (BASE * p - 1)) < k * (BASE * (BASE * p))
  {
    MulLe(col, k * SQUARE, p);
    MulLe(k - 1, k, (BASE - 1) * (p - 1));
    assert k * SQUARE * p + k * ((BASE - 1) * (p - 1)) == k * ((BASE - 1) * (BASE * p - 1)) by {
      assert SQUARE * p + (BASE - 1) * (p - 1) == (BASE - 1) * (BASE * p - 1);
    }
    MulLe((BASE - 1) * (BASE * p - 1) + 1, BASE * (BASE * p), k);
  }

  /** Columns beyond the limbs of the operands are empty, so partial sums over the overlap suffice. */
  lemma {:induction false} ColumnBelow(x: seq<uint32>, i: nat, y: seq<uint32>, m: nat, c: nat)
    requires i <= |x| && m <= |y|
    requires i > 0 ==> c - (i - 1) >= m
    ensures Column(x, i, y, m, c) == 0
  {
    if i > 0 {
      ColumnBelow(x, i - 1, y, m, c);
    }
  }

  lemma {:induction false} ColumnAbove(x: seq<uint32>, i: nat, n: nat, y: seq<uint32>, m: nat, c: nat)
    requires i <= n <= |x| && m <= |y|
    requires i < n ==> i > c
    ensures Column(x, n, y, m, c) == Column(x, i, y, m, c)
  {
    if i < n {
      ColumnAbove(x, i, n - 1, y, m, c);
    }
  }
}
