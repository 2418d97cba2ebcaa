/** Little-endian numerals in base 2^28: the integer that a run of limbs denotes. */
module Limbs {
  import opened Word

  const BN_BITS: nat := 28
  const BASE: int := 0x1000_0000
  const BN_MASK: int := 0xFFF_FFFF
  const MAX_BN_ELEMENTS: nat := 80

  function Pow(n: nat): (p: int)
    ensures p > 0
  {
    if n == 0 then 1 else BASE * Pow(n - 1)
  }

  /** The integer denoted by the `n` lowest limbs of `s`. */
  function Val(s: seq<uint32>, n: nat): (v: int)
    requires n <= |s|
    ensures v >= 0
  {
    if n == 0 then 0 else Val(s, n - 1) + s[n - 1] * Pow(n - 1)
  }

  /** The `n` lowest limbs are proper 28-bit digits. */
  ghost predicate Proper(s: seq<uint32>, n: nat)
    requires n <= |s|
  {
    forall i :: 0 <= i < n ==> s[i] < BASE
  }

  /** Limbs `from .. to-1` are all zero. */
  ghost predicate ZeroFrom(s: seq<uint32>, from: nat, to: nat)
    requires to <= |s|
  {
    forall i :: from <= i < to ==> s[i] == 0
  }

  lemma {:induction false} PowAdd(a: nat, b: nat)
    ensures Pow(a + b) == Pow(a) * Pow(b)
  {
    if a == 0 {
    } else {
      PowAdd(a - 1, b);
      assert BASE * (Pow(a - 1) * Pow(b)) == (BASE * Pow(a - 1)) * Pow(b);
    }
  }

  lemma PowSplit(n: nat, k: nat)
    requires k <= n
    ensures Pow(n) == Pow(k) * Pow(n - k)
  {
    assert k + (n - k) == n;
    PowAdd(k, n - k);
  }

  lemma {:induction false} PowMono(a: nat, b: nat)
    requires a <= b
    ensures Pow(a) <= Pow(b)
    ensures a < b ==> BASE * Pow(a) <= Pow(b)
    decreases b - a
  {
    if a < b {
      PowMono(a + 1, b);
    }
  }

  /** Only the limbs that are read matter. */
  lemma {:induction false} ValCong(s: seq<uint32>, t: seq<uint32>, n: nat)
    requires n <= |s| && n <= |t|
    requires forall i :: 0 <= i < n ==> s[i] == t[i]
    ensures Val(s, n) == Val(t, n)
  {
    if n > 0 {
      ValCong(s, t, n - 1);
    }
  }

  lemma {:induction false} ValBound(s: seq<uint32>, n: nat)
    requires n <= |s| && Proper(s, n)
    ensures Val(s, n) < Pow(n)
  {
    if n > 0 {
      ValBound(s, n - 1);
      MulLe(s[n - 1], BASE - 1, Pow(n - 1));
    }
  }

  lemma {:induction false} ValZeroTail(s: seq<uint32>, n: nat, m: nat)
    requires n <= m <= |s| && ZeroFrom(s, n, m)
    ensures Val(s, m) == Val(s, n)
    decreases m
  {
    if n < m {
      ValZeroTail(s, n, m - 1);
    }
  }

  lemma MulLe(a: int, b: int, c: int)
    requires a <= b && 0 <= c
    ensures a * c <= b * c
  {
  }

  lemma DistributeSum(a: int, b: int, p: int)
    ensures (a + b) * p == a * p + b * p
  {
  }

  /** Truncation to 32 bits does not disturb the low 28. */
  lemma WrapMod(x: int)
    requires x >= 0
    ensures Wrap32(x) % BASE == x % BASE
  {
    var q := x / 0x1_0000_0000;
    var r := x % 0x1_0000_0000;
    DivModUnique(x, BASE, q * 16 + r / BASE, r % BASE);
  }

  /** A non-zero limb at position `i` is worth at least B^i. */
  lemma {:induction false} ValLower(s: seq<uint32>, i: nat, n: nat)
    requires i < n <= |s|
    ensures Val(s, n) >= s[i] * Pow(i)
    decreases n
  {
    if i + 1 < n {
      ValLower(s, i, n - 1);
      MulLe(0, s[n - 1], Pow(n - 1));
    }
  }

  /** A prefix is worth no more than the whole. */
  lemma {:induction false} ValPrefix(s: seq<uint32>, i: nat, n: nat)
    requires i <= n <= |s|
    ensures Val(s, i) <= Val(s, n)
    decreases n
  {
    if i < n {
      ValPrefix(s, i, n - 1);
      MulLe(0, s[n - 1], Pow(n - 1));
    }
  }

  /** Splitting a numeral at limb `k`. */
  lemma {:induction false} ValSplit(s: seq<uint32>, k: nat, n: nat)
    requires k <= n <= |s|
    ensures Val(s, n) == Val(s, k) + Pow(k) * Val(s[k..], n - k)
    decreases n
  {
    if k < n {
      ValSplit(s, k, n - 1);
      var t := s[k..];
      assert t[n - 1 - k] == s[n - 1];
      PowAdd(k, n - 1 - k);
      assert Val(t, n - k) == Val(t, n - 1 - k) + t[n - 1 - k] * Pow(n - 1 - k);
      Regroup(Pow(k), Val(t, n - 1 - k), s[n - 1], Pow(n - 1 - k));
    }
  }

  lemma Regroup(p: int, v: int, d: int, q: int)
    ensures p * (v + d * q) == p * v + d * (p * q)
  {
  }

  /** The most significant difference decides the order of two numerals. */
  lemma {:induction false} ValOrder(s: seq<uint32>, t: seq<uint32>, i: nat, n: nat)
    requires i < n && n <= |s| && n <= |t| && Proper(s, n) && Proper(t, n)
    requires s[i] < t[i]
    requires forall j :: i < j < n ==> s[j] == t[j]
    ensures Val(s, n) < Val(t, n)
    decreases n
  {
    if i + 1 < n {
      ValOrder(s, t, i, n - 1);
      assert s[n - 1] == t[n - 1];
    } else {
      var p := Pow(i);
      assert Val(s, i) < p by { ValBound(s, i); }
      assert (s[i] + 1) * p <= t[i] * p by { MulLe(s[i] + 1, t[i], p); }
      assert (s[i] + 1) * p == s[i] * p + p;
    }
  }

  /** Quotient and remainder are determined by the division equation. */
  lemma DivModUnique(x: int, m: int, q: int, r: int)
    requires m > 0 && x == q * m + r && 0 <= r < m
    ensures x / m == q && x % m == r
  {
    var d := x / m - q;
    assert x == (x / m) * m + x % m;
    assert d * m == r - x % m;
    if d >= 1 {
      MulLe(1, d, m);
    } else if d <= -1 {
      MulLe(d, -1, m);
    }
  }

  /** Dropping the `k` lowest limbs divides by B^k; keeping only them is the remainder. */
  lemma ValDivMod(s: seq<uint32>, k: nat, n: nat)
    requires k <= n <= |s| && Proper(s, n)
    ensures Val(s, n) / Pow(k) == Val(s[k..], n - k)
    ensures Val(s, n) % Pow(k) == Val(s, k)
  {
    ValSplit(s, k, n);
    ValBound(s, k);
    DivModUnique(Val(s, n), Pow(k), Val(s[k..], n - k), Val(s, k));
  }

  function Pow2(n: nat): (p: int)
    ensures p > 0
  {
    if n == 0 then 1 else 2 * Pow2(n - 1)
  }

  lemma {:induction false} Pow2Add(a: nat, b: nat)
    ensures Pow2(a + b) == Pow2(a) * Pow2(b)
  {
    if a > 0 {
      Pow2Add(a - 1, b);
      assert 2 * (Pow2(a - 1) * Pow2(b)) == (2 * Pow2(a - 1)) * Pow2(b);
    }
  }

  lemma {:induction false} Pow2Mono(a: nat, b: nat)
    requires a <= b
    ensures Pow2(a) <= Pow2(b)
    ensures a < b ==> 2 * Pow2(a) <= Pow2(b)
    decreases b - a
  {
    if a < b {
      Pow2Mono(a + 1, b);
    }
  }

  lemma Pow2Base()
    ensures Pow2(BN_BITS) == BASE
  {
    assert Pow2(7) == 128;
    Pow2Add(7, 7);
    Pow2Add(14, 14);
  }

  /** A bit count is a limb count and a rest. */
  lemma {:induction false} Pow2Limbs(k: nat, r: nat)
    ensures Pow2(BN_BITS * k + r) == Pow(k) * Pow2(r)
  {
    if k > 0 {
      Pow2Limbs(k - 1, r);
      Pow2Base();
      Pow2Add(BN_BITS, BN_BITS * (k - 1) + r);
      assert BASE * (Pow(k - 1) * Pow2(r)) == (BASE * Pow(k - 1)) * Pow2(r);
    }
  }

  lemma PowIsPow2(k: nat)
    ensures Pow2(k * BN_BITS) == Pow(k)
  {
    Pow2Limbs(k, 0);
    assert BN_BITS * k + 0 == k * BN_BITS;
  }

  /** `v` shifted left by `n` bits. */
  function Shl(v: int, n: nat): int {
    if n == 0 then v else 2 * Shl(v, n - 1)
  }

  /** `v` shifted left by `k` limbs. */
  function ShlLimbs(v: int, k: nat): int {
    if k == 0 then v else BASE * ShlLimbs(v, k - 1)
  }

  lemma {:induction false} ShlIsProduct(v: int, n: nat)
    ensures Shl(v, n) == v * Pow2(n)
  {
    if n > 0 {
      ShlIsProduct(v, n - 1);
      assert 2 * (v * Pow2(n - 1)) == v * (2 * Pow2(n - 1));
    }
  }

  lemma {:induction false} ShlLimbsIsProduct(v: int, k: nat)
    ensures ShlLimbs(v, k) == v * Pow(k)
  {
    if k > 0 {
      ShlLimbsIsProduct(v, k - 1);
      assert BASE * (v * Pow(k - 1)) == v * (BASE * Pow(k - 1));
    }
  }

  lemma MulAssoc(a: int, b: int, c: int)
    ensures a * (b * c) == (a * b) * c
  {
  }

  /** Shifting by limbs and then by bits. */
  lemma ShlParts(v: int, k: nat, r: nat)
    ensures Shl(v, BN_BITS * k + r) == Shl(ShlLimbs(v, k), r)
  {
    ShlIsProduct(v, BN_BITS * k + r);
    ShlLimbsIsProduct(v, k);
    ShlIsProduct(ShlLimbs(v, k), r);
    Pow2Limbs(k, r);
    MulAssoc(v, Pow(k), Pow2(r));
  }
}
