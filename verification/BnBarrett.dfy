/** Modular reduction with a precomputed reciprocal. */
module BnBarrett {
  import opened Word
  import opened Limbs
  import opened BigNum
  import opened BnAddSub
  import opened BnShift
  import opened BnBits
  import opened Columns
  import opened BnMultiply
  import opened BnDivide
  import opened BnDiv
  import opened BarrettMath
  import opened BnCorrection
  import opened LimbDigits

  /** The scratch area: the reciprocal, three numbers for the reduction, six for the division. */
  class KcScratch {
    const u: KcBignum
    const t0: KcBignum
    const t1: KcBignum
    const t2: KcBignum
    const div: DivScratch
    ghost const memory: set<object>

    ghost predicate Valid()
      reads memory, div.memory
    {
      && u in memory && u.data in memory && t0 in memory && t0.data in memory
      && t1 in memory && t1.data in memory && t2 in memory && t2.data in memory
      && memory !! div.memory
      && Separate(u, t0) && Separate(u, t1) && Separate(u, t2)
      && Separate(t0, t1) && Separate(t0, t2) && Separate(t1, t2)
      && u.Valid() && t0.Valid() && t1.Valid() && t2.Valid() && div.Valid()
    }

    constructor ()
      ensures Valid() && fresh(memory) && fresh(div.memory)
    {
      var d := new DivScratch();
      var n0, n1, n2 := ThreeNumbers();
      var n3 := new KcBignum();
      u, t0, t1, t2, div := n0, n1, n2, n3, d;
      memory := {n0, n0.data, n1, n1.data, n2, n2.data, n3, n3.data};
    }
  }

  /** The cut quotient is the quotient exactly when that fits the limbs reserved for it. */
  lemma QuotientIsWhole(a: int, b: int, n: nat)
    requires a >= 0 && b > 0
    ensures QuotientLimbs(a, b, n) == a / b <==> a <= b || a < b * Pow(n)
  {
    DivBounds(a, b);
    var q, p := a / b, Pow(n);
    if a < b * p {
      QuotientLess(a, b, p);
      DivModUnique(q, p, 0, q);
    } else {
      if q < p {
        MulLe(q + 1, p, b);
        DistributeSum(q, 1, b);
      }
      assert 0 <= q % p < p;
    }
  }

  /** The power of B that the reciprocal divides, over a modulus of k limbs. */
  lemma ReciprocalFits(m: int, k: nat)
    requires k > 0 && Pow(k - 1) <= m
    ensures Pow(k - 1) < m ==> QuotientLimbs(Pow(2 * k), m, k + 1) == Pow(2 * k) / m
    ensures Pow(k - 1) == m ==> QuotientLimbs(Pow(2 * k), m, k + 1) == 0
  {
    var d, p := Pow(k - 1), Pow(k + 1);
    PowSplit(2 * k, k + 1);
    PowMono(k - 1, 2 * k);
    QuotientIsWhole(Pow(2 * k), m, k + 1);
    if d < m {
      MulLe(d + 1, m, p);
      DistributeSum(d, 1, p);
    } else {
      DivModUnique(Pow(2 * k), m, p, 0);
      DivModUnique(p, p, 1, 0);
    }
  }

  /** u = B^2k / m for a modulus of k limbs; a modulus that is exactly B^(k-1) gives u = 0 instead. */
  method BarrettSetup(scratch: KcScratch, m: KcBignum) returns (status: Status)
    requires scratch.Valid() && {m, m.data} !! scratch.memory + scratch.div.memory
    requires m.Valid() && m.Trimmed() && m.sign == 0
    modifies scratch.memory, scratch.div.memory
    ensures scratch.Valid()
    ensures status ==
      if 2 * m.used >= MAX_BN_ELEMENTS then BufferOverflow else if m.used == 0 then InvalidParameter else Ok
    ensures status == Ok ==> m.Abs() > 0 && m.Abs() >= Pow(m.used - 1)
    ensures status == Ok ==>
      Holds(scratch.u, if m.Abs() == Pow(m.used - 1) then 0 else Pow(2 * m.used) / m.Abs())
  {
    var u := scratch.u;
    var k := m.used;
    Pow2Limbs(2 * k, 0);
    status := Set2Pwr(u, k * 2 * BN_BITS);
    if status != Ok {
      return;
    }
    status := DivideBy(scratch.div, u, m, k);
  }

  /** The division of the set-up: `u` holds B^2k and receives the cut quotient. */
  method DivideBy(scratch: DivScratch, u: KcBignum, m: KcBignum, ghost k: nat) returns (status: Status)
    requires scratch.Valid() && {m, m.data, u, u.data} !! scratch.memory && Separate(u, m)
    requires m.Valid() && m.Trimmed() && m.sign == 0 && m.used == k
    requires Holds(u, Pow(2 * k)) && u.used == 2 * k + 1 < MAX_BN_ELEMENTS
    modifies scratch.memory, u, u.data
    ensures scratch.Valid() && u.Valid()
    ensures status == if k == 0 then InvalidParameter else Ok
    ensures status == Ok ==> m.Abs() > 0 && m.Abs() >= Pow(k - 1)
    ensures status == Ok ==> Holds(u, if m.Abs() == Pow(k - 1) then 0 else Pow(2 * k) / m.Abs())
  {
    ghost var e, v := Pow(2 * k), m.Abs();
    if k > 0 {
      AtLeastTop(m.limbs, k);
      ReciprocalFits(v, k);
    }
    ShortIsScalable(u, m);
    status := Div(scratch, u, u, m, null);
  }

  /** The reciprocal as the set-up leaves it. */
  ghost function Reciprocal(m: int, k: nat): (u: int)
    requires m > 0 && k > 0
    ensures u >= 0
  {
    DivBounds(Pow(2 * k), m);
    if m == Pow(k - 1) then 0 else Pow(2 * k) / m
  }

  /** A modulus and its reciprocal, ready for reduction. */
  ghost predicate Prepared(u: KcBignum, m: KcBignum)
    reads u, u.data, m, m.data
  {
    && m.Valid() && m.Trimmed() && m.sign == 0 && m.Clean()
    && 0 < m.used && 2 * m.used < MAX_BN_ELEMENTS && m.Abs() >= Pow(m.used - 1) && m.Abs() > 0
    && Holds(u, Reciprocal(m.Abs(), m.used))
  }

  /** The reciprocal has k + 1 limbs. */
  lemma ReciprocalLength(us: seq<uint32>, used: nat, m: int, k: nat)
    requires used <= |us| && Proper(us, used) && (used > 0 ==> us[used - 1] != 0)
    requires k > 0 && Pow(k - 1) < m < Pow(k) && Val(us, used) == Pow(2 * k) / m
    ensures used == k + 1
  {
    PowSplit(2 * k, k);
    PowSplit(2 * k, k + 1);
    ReciprocalRange(m, Pow(k - 1), Pow(k), Pow(k + 1), Pow(2 * k));
    LengthFromBounds(us, used, k);
  }

  lemma ReciprocalRange(m: int, d: int, p: int, p1: int, e: int)
    requires 0 < d < m < p && p1 > 0 && e == p * p && e == p1 * d
    ensures p <= e / m < p1
  {
    DivBounds(e, m);
    MulLe(d + 1, m, p1);
    DistributeSum(d, 1, p1);
    QuotientLess(e, m, p1);
    var v := e / m;
    if v < p {
      MulLe(v + 1, p, m);
      DistributeSum(v, 1, m);
      MulLe(m + 1, p, p);
      DistributeSum(m, 1, p);
    }
  }

  lemma LossBelowTop(k: nat)
    requires 0 < k < MAX_BN_ELEMENTS
    ensures (k - 1) * Pow(k) < Pow(k + 1)
  {
    MulLe(k - 1, BASE - 1, Pow(k));
    assert Pow(k + 1) == BASE * Pow(k);
  }

  /** The middle product loses less than one unit of the quotient, and nothing if the modulus divides B^2k. */
  lemma MiddleLoss(q1: seq<uint32>, n: nat, us: seq<uint32>, m: int, k: nat)
    requires n <= |q1| && k + 1 <= |us| && 0 < k < MAX_BN_ELEMENTS && Proper(q1, n) && Proper(us, k + 1)
    requires 0 < m < Pow(k) && Val(us, k + 1) == Pow(2 * k) / m
    ensures 0 <= Val(q1, n) * Val(us, k + 1) - HighPart(q1, n, us, k + 1, k - 1) < Pow(k + 1)
    ensures HighPart(q1, n, us, k + 1, k - 1) >= 0
    ensures Pow(2 * k) % m == 0 ==> HighPart(q1, n, us, k + 1, k - 1) == Val(q1, n) * Val(us, k + 1)
  {
    HighPartLoss(q1, n, us, k + 1, k - 1);
    LossBelowTop(k);
    var high := ProductAbove(q1, n, us, k + 1, k - 1);
    MulLe(0, high, Pow(k - 1));
    if Pow(2 * k) % m == 0 {
      NoMiddleLoss(q1, n, us, m, k);
    }
  }

  lemma NoMiddleLoss(q1: seq<uint32>, n: nat, us: seq<uint32>, m: int, k: nat)
    requires n <= |q1| && k + 1 <= |us| && 0 < k < MAX_BN_ELEMENTS && Proper(q1, n) && Proper(us, k + 1)
    requires 0 < m < Pow(k) && Val(us, k + 1) == Pow(2 * k) / m && Pow(2 * k) % m == 0
    ensures HighPart(q1, n, us, k + 1, k - 1) == Val(q1, n) * Val(us, k + 1)
  {
    ReciprocalAligned(m, k, us, k + 1);
    EmptyLowColumns(q1, n, us, k + 1, k - 1);
  }

  /** The middle product, with the columns below k - 1 left out. */
  ghost function Middle(q1: nat, u: nat, k: nat): int
    requires k > 0
  {
    HighPart(Digits(q1), LimbCount(q1), Digits(u), LimbCount(u), k - 1)
  }

  /** The estimated quotient q3. */
  ghost function Estimated(x: nat, m: int, k: nat): int
    requires m > 0 && k > 0
  {
    DivBounds(x, Pow(k - 1));
    Middle(x / Pow(k - 1), Reciprocal(m, k), k) / Pow(k + 1)
  }

  /** What is left of x, modulo B^(k+1), when the correction begins. */
  ghost function Rest(x: nat, m: int, k: nat): (v: int)
    requires m > 0 && k > 0
    ensures 0 <= v < Pow(k + 1)
  {
    Difference(x, Estimated(x, m, k) * m, Pow(k + 1))
  }

  /** x - y, modulo p. */
  function Difference(x: int, y: int, p: int): (v: int)
    requires p > 0
    ensures 0 <= v < p
  {
    (x - y) % p
  }

  lemma MiddleOfLimbs(q1: seq<uint32>, n: nat, us: seq<uint32>, l: nat, k: nat)
    requires n <= |q1| && Proper(q1, n) && (n > 0 ==> q1[n - 1] != 0) && k > 0
    requires l <= |us| && Proper(us, l) && (l > 0 ==> us[l - 1] != 0)
    ensures HighPart(q1, n, us, l, k - 1) == Middle(Val(q1, n), Val(us, l), k)
  {
    DigitsUnique(q1, n);
    DigitsUnique(us, l);
    var s, t := Digits(Val(q1, n)), Digits(Val(us, l));
    assert s[..n] == q1[..n] && t[..l] == us[..l];
    HighPartCong(q1, s, n, us, t, l, k - 1);
  }

  lemma HighPartCong(x: seq<uint32>, s: seq<uint32>, n: nat, y: seq<uint32>, t: seq<uint32>, m: nat, digits: nat)
    requires n <= |x| && n <= |s| && m <= |y| && m <= |t| && x[..n] == s[..n] && y[..m] == t[..m]
    ensures HighPart(x, n, y, m, digits) == HighPart(s, n, t, m, digits)
  {
    SameValue(x, s, n);
    SameValue(y, t, m);
    LowColumnsCong(x, s, n, y, t, m, AtMost(digits, n + m));
  }

  lemma SameValue(x: seq<uint32>, s: seq<uint32>, n: nat)
    requires n <= |x| && n <= |s| && x[..n] == s[..n]
    ensures Val(x, n) == Val(s, n)
  {
    assert forall i :: 0 <= i < n ==> x[i] == x[..n][i] && s[i] == s[..n][i];
    ValCong(x, s, n);
  }

  /** The first half: the estimated quotient q3, in `t2`. */
  method EstimateQuotient(t0: KcBignum, t1: KcBignum, t2: KcBignum, u: KcBignum, x: KcBignum, m: KcBignum)
    returns (status: Status)
    requires t0.Valid() && t1.Valid() && t2.Valid() && Separate(t0, t1) && Separate(t0, t2) && Separate(t1, t2)
    requires Separate(u, t0) && Separate(u, t1) && Separate(u, t2)
    requires Separate(x, t0) && Separate(x, t1) && Separate(x, t2)
    requires Separate(m, t0) && Separate(m, t1) && Separate(m, t2)
    requires Prepared(u, m)
    requires x.Valid() && x.sign == 0 && x.Trimmed() && x.used <= 2 * m.used
    modifies t0, t0.data, t1, t1.data, t2, t2.data
    ensures t0.Valid() && t1.Valid() && t2.Valid() && status == Ok
    ensures t2.sign == 0 && t2.Abs() == Estimated(x.Abs(), m.Abs(), m.used)
  {
    var k := m.used;
    ghost var M, us, l := m.Abs(), u.limbs, u.used;
    ValBound(m.limbs, k);
    ReciprocalShort(us, l, M, k);
    ShiftDigR(t0, x, k - 1);
    MiddleOfLimbs(t0.limbs, t0.used, us, l, k);
    status := MultiplyHighDigs(t1, t0, u, k - 1);
    if status != Ok {
      return;
    }
    ShiftDigR(t2, t1, k + 1);
  }

  /** The reciprocal has at most k + 1 limbs. */
  lemma ReciprocalShort(us: seq<uint32>, l: nat, m: int, k: nat)
    requires l <= |us| && Proper(us, l) && (l > 0 ==> us[l - 1] != 0)
    requires k > 0 && Pow(k - 1) <= m < Pow(k) && Val(us, l) == Reciprocal(m, k)
    ensures l <= k + 1
  {
    if m == Pow(k - 1) {
      ShortNumeral(us, l, 0);
    } else {
      ReciprocalLength(us, l, m, k);
    }
  }

  /** The rest, for a modulus whose reciprocal is not cut: less than four times the modulus, and congruent to x. */
  lemma RestIsSmall(x: nat, m: int, k: nat)
    requires 0 < k < MAX_BN_ELEMENTS && Pow(k - 1) < m < Pow(k) && 0 < x < Pow(2 * k)
    ensures 0 <= Rest(x, m, k) < 4 * m && Rest(x, m, k) <= x && Rest(x, m, k) % m == x % m
    ensures Rest(x, m, k) == x - Estimated(x, m, k) * m
    ensures x % m == 0 ==> (Rest(x, m, k) == 0 <==> NothingRounded(x, m, k))
  {
    var q3 := Estimated(x, m, k);
    EstimatedWell(x, m, k, q3);
    assert 4 * m < Pow(k + 1) by {
      assert Pow(k + 1) == BASE * Pow(k);
    }
    RestOf(x, q3, q3 * m, m, Pow(k + 1), Rest(x, m, k));
  }

  lemma EstimatedWell(x: nat, m: int, k: nat, q3: int)
    requires 0 < k < MAX_BN_ELEMENTS && Pow(k - 1) < m < Pow(k) && 0 < x < Pow(2 * k) && q3 == Estimated(x, m, k)
    ensures 0 <= q3 && 0 <= x - q3 * m < 4 * m
    ensures x % m == 0 ==> (q3 * m == x <==> NothingRounded(x, m, k))
  {
    DivBounds(x, Pow(k - 1));
    DivBounds(Pow(2 * k), m);
    var q1, u := x / Pow(k - 1), Pow(2 * k) / m;
    DigitsValue(q1);
    DigitsValue(u);
    ReciprocalLength(Digits(u), LimbCount(u), m, k);
    QuotientEstimated(x, m, k, Digits(q1), LimbCount(q1), Digits(u), Middle(q1, u, k), q3);
  }

  lemma RestOf(x: int, q: int, y: int, m: int, p: int, rest: int)
    requires y == q * m && 0 <= q && 0 <= x - y < 4 * m < p && rest == Difference(x, y, p)
    ensures 0 <= rest < 4 * m && rest == x - y <= x && rest % m == x % m
  {
    MulLe(0, q, m);
    DivModUnique(x - y, p, 0, x - y);
    Congruent(x, m, q);
  }

  /** For a modulus that is a power of B nothing is estimated. */
  lemma RestOfPower(x: nat, k: nat)
    requires k > 0
    ensures Rest(x, Pow(k - 1), k) == x % Pow(k + 1)
    ensures Rest(x, Pow(k - 1), k) <= x && Rest(x, Pow(k - 1), k) % Pow(k - 1) == x % Pow(k - 1)
  {
    var m, p := Pow(k - 1), Pow(k + 1);
    DivBounds(x, m);
    var q1 := x / m;
    HighPartEmpty(Digits(q1), LimbCount(q1), Digits(0), 0, k - 1);
    DivModUnique(0, p, 0, 0);
    PowMono(0, k);
    assert p == BASE * (BASE * m);
    DivBounds(x, p);
    var c := x / p;
    Congruent(x, m, c * (BASE * BASE));
    assert x % p == x - c * p;
    Reassociate(c, m, p);
  }

  lemma Reassociate(c: int, m: int, p: int)
    requires p == BASE * (BASE * m)
    ensures (c * (BASE * BASE)) * m == c * p
  {
  }

  lemma QuotientEstimated(x: int, m: int, k: nat, q1: seq<uint32>, n: nat, us: seq<uint32>, q2: int, q3: int)
    requires n <= |q1| && k + 1 <= |us| && 0 < k < MAX_BN_ELEMENTS && Proper(q1, n) && Proper(us, k + 1)
    requires 0 < x < Pow(2 * k) && Pow(k - 1) < m < Pow(k)
    requires Val(q1, n) == x / Pow(k - 1) && Val(us, k + 1) == Pow(2 * k) / m
    requires q2 == HighPart(q1, n, us, k + 1, k - 1) && q3 == q2 / Pow(k + 1)
    ensures 0 <= q3 && 0 <= x - q3 * m < 4 * m
    ensures x % m == 0 ==> (q3 * m == x <==> NothingRounded(x, m, k))
  {
    MiddleLoss(q1, n, us, m, k);
    var u, v := Val(us, k + 1), Val(q1, n);
    var loss := v * u - q2;
    EstimateClose(x, m, k, u, v, q2, q3, loss);
    if x % m == 0 {
      ExactOnMultiples(x, m, k, u, v, q2, q3, loss);
    }
  }

  /** A difference below p is found again from the residues modulo p. */
  lemma ResidueDifference(x: int, y: int, p: int)
    requires p > 0 && 0 <= x - y < p
    ensures x % p - y % p == x - y || x % p - y % p == x - y - p
    ensures 0 <= x % p < p && 0 <= y % p < p
  {
    var a, b := x / p, y / p;
    assert x == a * p + x % p && y == b * p + y % p;
    var c := a - b;
    assert x - y == c * p + (x % p - y % p) by {
      assert c * p == a * p - b * p;
    }
    if c >= 2 {
      MulLe(2, c, p);
    }
    if c <= -1 {
      MulLe(c, -1, p);
    }
  }

  /** What a difference leaves above position n, when both operands are at most that long. */
  lemma AboveUnchanged(a: int, b: int, sign: nat, used: nat, longer: nat, before: seq<uint32>, z: KcBignum, n: nat)
    requires SubtractFrame(a, b, sign, used, longer, before, z) && longer <= n
    ensures forall i :: n <= i < MAX_BN_ELEMENTS ==> z.limbs[i] == before[i]
    ensures Proper(before, MAX_BN_ELEMENTS) ==> Proper(z.limbs, MAX_BN_ELEMENTS)
    ensures a != b && ZeroFrom(before, longer, MAX_BN_ELEMENTS) ==> z.Clean()
  {
  }

  /** r = r1 - r2, plus B^(k+1) if that is negative. The limbs from position `w` on stay as they were. */
  method RecoverRemainder(r: KcBignum, r1: KcBignum, r2: KcBignum, k: nat, ghost x: int, ghost y: int, ghost w: nat)
    returns (status: Status)
    requires r.Valid() && r1.Valid() && r1.Trimmed() && r1.sign == 0 && r2.Valid() && r2.Trimmed() && r2.sign == 0
    requires Separate(r, r1) && Separate(r, r2) && Separate(r1, r2) && k + 2 <= MAX_BN_ELEMENTS
    requires r1.Abs() == x % Pow(k + 1) && r2.Abs() == y % Pow(k + 1) && 0 <= x - y < Pow(k + 1)
    requires w == if x % Pow(k + 1) < y % Pow(k + 1) then k + 2 else r1.used
    requires Proper(r.limbs, MAX_BN_ELEMENTS)
    modifies r, r.data, r1, r1.data
    ensures status == Ok && r1.Valid() && Holds(r, x - y)
    ensures x == y ==> r.limbs == old(r.limbs)
    ensures x != y ==> w <= MAX_BN_ELEMENTS && Overwritten(old(r.limbs), r.limbs, r.used, w)
    ensures Proper(r.limbs, MAX_BN_ELEMENTS)
  {
    ghost var a, b, n1, longer, R0 := r1.Abs(), r2.Abs(), r1.used, Longer(r1, r2), r.limbs;
    ResidueDifference(x, y, Pow(k + 1));
    ShortNumeral(r1.limbs, r1.used, k + 1);
    ShortNumeral(r2.limbs, r2.used, k + 1);
    CanonicalLength(r1.limbs, r1.used, r2.limbs, r2.used);
    status := Subtract(r, r1, r2);
    if status != Ok {
      return;
    }
    AboveUnchanged(a, b, 0, n1, longer, R0, r, k + 1);
    if r.sign == 1 {
      status := AddPower(r, r1, k);
    }
  }

  /** `after` is `before` with a numeral of `used` limbs written over its `w` lowest limbs. */
  ghost predicate Overwritten(before: seq<uint32>, after: seq<uint32>, used: nat, w: nat) {
    && |after| == |before| == MAX_BN_ELEMENTS && used <= w <= MAX_BN_ELEMENTS && ZeroFrom(after, used, w)
    && forall i :: w <= i < MAX_BN_ELEMENTS ==> after[i] == before[i]
  }

  /** r = r + B^(k+1) for negative r of smaller magnitude. */
  method AddPower(r: KcBignum, t: KcBignum, k: nat) returns (status: Status)
    requires r.Valid() && r.Trimmed() && r.sign == 1 && t.Valid() && Separate(r, t) && k + 2 <= MAX_BN_ELEMENTS
    requires 0 < r.Abs() < Pow(k + 1) && Proper(r.limbs, MAX_BN_ELEMENTS)
    modifies r, r.data, t, t.data
    ensures status == Ok && t.Valid() && Holds(r, Pow(k + 1) - old(r.Abs()))
    ensures Overwritten(old(r.limbs), r.limbs, r.used, k + 2)
    ensures Proper(r.limbs, MAX_BN_ELEMENTS)
  {
    PowIsPow2(k + 1);
    ShortNumeral(r.limbs, r.used, k + 1);
    status := Set2Pwr(t, (k + 1) * BN_BITS);
    if status != Ok {
      return;
    }
    ghost var R0, a, longer := r.limbs, r.Abs(), Longer(r, t);
    status := Add(r, r, t);
    AboveUnchanged(Pow(k + 1), a, 0, t.used, longer, R0, r, k + 2);
  }

  /** How many limbs of the result buffer are written before the correction of x >= m begins with the rest `v`. */
  ghost function Written(x: nat, v: int, k: nat): nat
    requires 0 <= v
  {
    if v == 0 then 0
    else if x % Pow(k + 1) < (x - v) % Pow(k + 1) then k + 2
    else LimbCount(x % Pow(k + 1))
  }

  function Larger(a: nat, b: nat): nat {
    if a < b then b else a
  }

  /**
   When reducing x >= m succeeds, in terms of the limbs that the result buffer held before, for the rest `v` and the
   number `w` of limbs that are written. A rest of zero leaves the buffer as it was, and that must look small; a rest
   below the modulus gets by with stale limbs below the length of the modulus; any other rest needs a buffer without
   stale limbs, must not be a multiple of the modulus, and may contain it eleven times.
  */
  ghost predicate Reduces(before: seq<uint32>, v: int, w: nat, m: int, k: nat)
    requires |before| == MAX_BN_ELEMENTS && m > 0
  {
    if v == 0 then Val(before, MAX_BN_ELEMENTS) < m
    else if v < m then ZeroFrom(before, Larger(w, k), MAX_BN_ELEMENTS)
    else ZeroFrom(before, w, MAX_BN_ELEMENTS) && v % m != 0 && v / m <= 11
  }

  /** What the result buffer then holds: the residue, or the residue less the modulus. */
  ghost function Residue(before: seq<uint32>, v: int, w: nat, m: int): int
    requires |before| == MAX_BN_ELEMENTS && w <= MAX_BN_ELEMENTS && m > 0
  {
    if 0 < v < m <= v + Stale(before, w) then v - m else v % m
  }

  /** The same in terms of the buffer at the beginning of the correction. */
  lemma CorrectsIsReduces(before: seq<uint32>, s: seq<uint32>, v: int, used: nat, w: nat, m: int, k: nat)
    requires |before| == MAX_BN_ELEMENTS && Start(s, v, used, m, k) && m > 0 && v >= 0
    requires if v == 0 then s == before && w == 0 else Overwritten(before, s, used, w)
    ensures Corrects(s, v, used, m, k) <==> Reduces(before, v, w, m, k)
    ensures Corrected(s, v, m) == Residue(before, v, w, m)
  {
    StartLength(s, v, used, m, k);
    if v > 0 {
      StaleBeyond(s, used, w);
      StaleCong(s, before, w);
      if ZeroFrom(before, Larger(w, k), MAX_BN_ELEMENTS) && v < m {
        assert ZeroFrom(s, k, MAX_BN_ELEMENTS);
      }
      if ZeroFrom(s, k, MAX_BN_ELEMENTS) && v < m {
        assert ZeroFrom(before, Larger(w, k), MAX_BN_ELEMENTS);
      }
    }
  }

  /** What a result is worth in any case: it is congruent to x, and less than a modulus away from zero. */
  lemma ResidueCongruent(before: seq<uint32>, v: int, w: nat, m: int, x: int)
    requires |before| == MAX_BN_ELEMENTS && w <= MAX_BN_ELEMENTS && m > 0 && v >= 0 && v % m == x % m
    ensures var z := Residue(before, v, w, m);
            -m < z < m && z % m == x % m && (z >= 0 ==> z == x % m) && (z < 0 ==> z == x % m - m)
  {
    if v < m {
      DivModUnique(v, m, 0, v);
      DivModUnique(v - m, m, -1, v);
    } else {
      DivModUnique(v % m, m, 0, v % m);
    }
  }

  /** The outcome of reducing x >= m into a buffer that held the limbs `before`. */
  ghost predicate Outcome(status: Status, x: nat, m: int, k: nat, before: seq<uint32>, r: KcBignum)
    requires k > 0 && m > 0 && |before| == MAX_BN_ELEMENTS
    reads r, r.data
  {
    var v := Rest(x, m, k);
    var w := Written(x, v, k);
    && w <= MAX_BN_ELEMENTS && r.Valid()
    && status == (if Reduces(before, v, w, m, k) then Ok else BadBignumber)
    && (status == Ok ==> r.Trimmed() && r.Value() == Residue(before, v, w, m))
  }

  /** A result that is congruent to x, after at most three subtractions if the reciprocal is not cut. */
  ghost predicate Sound(x: int, m: int, k: nat, z: int, count: nat)
    requires m > 0 && k > 0
  {
    -m < z < m && z % m == x % m && (m > Pow(k - 1) ==> count <= 3)
  }

  /** r = x mod m for x of at most twice as many limbs as m. */
  method BarrettReduce(scratch: KcScratch, r: KcBignum, x: KcBignum, m: KcBignum)
    returns (status: Status, ghost count: nat)
    requires scratch.Valid() && {r, r.data, x, x.data, m, m.data} !! scratch.memory + scratch.div.memory
    requires Separate(r, m) && Apart(r, x) && Apart(x, m)
    requires Prepared(scratch.u, m)
    requires x.Valid() && x.Trimmed() && x.sign == 0 && x.Clean()
    requires r.Valid() && Proper(r.limbs, MAX_BN_ELEMENTS)
    modifies r, r.data, scratch.memory
    ensures scratch.Valid() && r.Valid()
    ensures old(x.used) > 2 * m.used ==> status == InvalidSize
    ensures old(x.used) <= 2 * m.used && old(x.Abs()) < m.Abs() ==> status == Ok && Holds(r, old(x.Abs()))
    ensures old(x.used) <= 2 * m.used && old(x.Abs()) >= m.Abs() ==>
              Outcome(status, old(x.Abs()), m.Abs(), m.used, old(r.limbs), r)
    ensures status == Ok ==> Sound(old(x.Abs()), m.Abs(), m.used, r.Value(), count)
  {
    ghost var X, M := x.Abs(), m.Abs();
    status, count := ReduceInto(scratch.t0, scratch.t1, scratch.t2, scratch.u, r, x, m);
    if X < M && status == Ok {
      AlreadySmall(X, M, m.used, r.Value(), count);
    }
  }

  lemma AlreadySmall(x: int, m: int, k: nat, z: int, count: nat)
    requires 0 <= x < m && z == x && count == 0 && k > 0
    ensures Sound(x, m, k, z, count)
  {
  }

  /** The same, on the numbers of the scratch area. */
  method ReduceInto(t0: KcBignum, t1: KcBignum, t2: KcBignum, u: KcBignum, r: KcBignum, x: KcBignum, m: KcBignum)
    returns (status: Status, ghost count: nat)
    requires t0.Valid() && t1.Valid() && t2.Valid() && Separate(t0, t1) && Separate(t0, t2) && Separate(t1, t2)
    requires Separate(u, t0) && Separate(u, t1) && Separate(u, t2) && Separate(u, r)
    requires Separate(x, t0) && Separate(x, t1) && Separate(x, t2)
    requires Separate(m, t0) && Separate(m, t1) && Separate(m, t2)
    requires Separate(r, t0) && Separate(r, t1) && Separate(r, t2) && Separate(r, m) && Apart(r, x)
    requires Prepared(u, m)
    requires x.Valid() && x.Trimmed() && x.sign == 0 && x.Clean()
    requires r.Valid() && Proper(r.limbs, MAX_BN_ELEMENTS)
    modifies r, r.data, t0, t0.data, t1, t1.data, t2, t2.data
    ensures r.Valid() && t0.Valid() && t1.Valid() && t2.Valid()
    ensures old(x.used) > 2 * m.used ==> status == InvalidSize
    ensures old(x.used) <= 2 * m.used && old(x.Abs()) < m.Abs() ==> status == Ok && Holds(r, old(x.Abs())) && count == 0
    ensures old(x.used) <= 2 * m.used && old(x.Abs()) >= m.Abs() ==>
              && Outcome(status, old(x.Abs()), m.Abs(), m.used, old(r.limbs), r)
              && (status == Ok ==> Sound(old(x.Abs()), m.Abs(), m.used, r.Value(), count))
  {
    count := 0;
    if x.used > m.used * 2 {
      return InvalidSize, count;
    }
    var compare := SecureCompare(x, m);
    if compare == BN_SMALLER {
      Copy(r, x);
      return Ok, count;
    }
    status, count := ReduceLarge(t0, t1, t2, u, r, x, m);
  }

  lemma OperandsBelow(x: KcBignum, m: KcBignum)
    requires x.Valid() && m.Valid() && x.used <= 2 * m.used
    ensures x.Abs() < Pow(2 * m.used) && m.Abs() < Pow(m.used)
  {
    ValBound(x.limbs, x.used);
    PowMono(x.used, 2 * m.used);
    ValBound(m.limbs, m.used);
  }

  method ReduceLarge(t0: KcBignum, t1: KcBignum, t2: KcBignum, u: KcBignum, r: KcBignum, x: KcBignum, m: KcBignum)
    returns (status: Status, ghost count: nat)
    requires t0.Valid() && t1.Valid() && t2.Valid() && Separate(t0, t1) && Separate(t0, t2) && Separate(t1, t2)
    requires Separate(u, t0) && Separate(u, t1) && Separate(u, t2)
    requires Separate(x, t0) && Separate(x, t1) && Separate(x, t2)
    requires Separate(m, t0) && Separate(m, t1) && Separate(m, t2)
    requires Separate(r, t0) && Separate(r, t1) && Separate(r, t2) && Separate(r, m) && Apart(r, x)
    requires Prepared(u, m)
    requires x.Valid() && x.Trimmed() && x.sign == 0 && x.used <= 2 * m.used && x.Abs() >= m.Abs()
    requires r.Valid() && Proper(r.limbs, MAX_BN_ELEMENTS)
    modifies r, r.data, t0, t0.data, t1, t1.data, t2, t2.data
    ensures r.Valid() && t0.Valid() && t1.Valid() && t2.Valid()
    ensures Outcome(status, old(x.Abs()), m.Abs(), m.used, old(r.limbs), r)
    ensures status == Ok ==> Sound(old(x.Abs()), m.Abs(), m.used, r.Value(), count)
  {
    ghost var X := x.Abs();
    OperandsBelow(x, m);
    count := 0;
    ghost var y;
    status, y := Residues(t0, t1, t2, u, x, m);
    if status != Ok {
      return;
    }
    status, count := FinishLarge(r, t0, t1, m, X, y);
  }

  method FinishLarge(r: KcBignum, t0: KcBignum, t1: KcBignum, m: KcBignum, ghost x: nat, ghost y: int)
    returns (status: Status, ghost count: nat)
    requires r.Valid() && Proper(r.limbs, MAX_BN_ELEMENTS)
    requires m.Valid() && m.Trimmed() && m.sign == 0 && m.Clean() && 0 < m.used && 2 * m.used < MAX_BN_ELEMENTS
    requires Pow(m.used - 1) <= m.Abs() < Pow(m.used) && 0 < m.Abs() && 0 < x < Pow(2 * m.used)
    requires Separate(r, t0) && Separate(r, t1) && Separate(t0, t1)
    requires Separate(r, m) && Separate(m, t0) && Separate(m, t1)
    requires y == Estimated(x, m.Abs(), m.used) * m.Abs()
    requires Holds(t0, x % Pow(m.used + 1)) && Holds(t1, y % Pow(m.used + 1))
    modifies r, r.data, t0, t0.data
    ensures r.Valid() && t0.Valid()
    ensures Outcome(status, x, m.Abs(), m.used, old(r.limbs), r)
    ensures status == Ok ==> Sound(x, m.Abs(), m.used, r.Value(), count)
  {
    ghost var M, k, R0 := m.Abs(), m.used, r.limbs;
    ghost var v := Rest(x, M, k);
    ghost var w := Written(x, v, k);
    RestTaken(x, M, k, y);
    status, count := FinishReduction(r, t0, t1, m, x, v, w);
    if status == Ok {
      ResultIsSound(R0, x, M, k, v, w, count);
    }
  }

  lemma ResultIsSound(before: seq<uint32>, x: nat, m: int, k: nat, v: int, w: nat, count: nat)
    requires |before| == MAX_BN_ELEMENTS && w <= MAX_BN_ELEMENTS
    requires 0 < k < MAX_BN_ELEMENTS && 0 < m && Pow(k - 1) <= m < Pow(k) && 0 < x < Pow(2 * k)
    requires v == Rest(x, m, k) && Residue(before, v, w, m) == v - count * m
    ensures Sound(x, m, k, Residue(before, v, w, m), count)
  {
    RestCongruent(x, m, k);
    ResidueCongruent(before, v, w, m, x);
    FewRounds(v, Residue(before, v, w, m), m, count, v < 4 * m);
  }

  /** The residues modulo B^(k+1) of x and of y = q3 m, in `t0` and `t1`. */
  method Residues(t0: KcBignum, t1: KcBignum, t2: KcBignum, u: KcBignum, x: KcBignum, m: KcBignum)
    returns (status: Status, ghost y: int)
    requires t0.Valid() && t1.Valid() && t2.Valid() && Separate(t0, t1) && Separate(t0, t2) && Separate(t1, t2)
    requires Separate(u, t0) && Separate(u, t1) && Separate(u, t2)
    requires Separate(x, t0) && Separate(x, t1) && Separate(x, t2)
    requires Separate(m, t0) && Separate(m, t1) && Separate(m, t2)
    requires Prepared(u, m)
    requires x.Valid() && x.Trimmed() && x.sign == 0 && x.used <= 2 * m.used
    modifies t0, t0.data, t1, t1.data, t2, t2.data
    ensures t0.Valid() && t1.Valid() && t2.Valid() && status == Ok
    ensures y == Estimated(x.Abs(), m.Abs(), m.used) * m.Abs()
    ensures Holds(t0, x.Abs() % Pow(m.used + 1)) && Holds(t1, y % Pow(m.used + 1))
  {
    y := Estimated(x.Abs(), m.Abs(), m.used) * m.Abs();
    status := EstimateQuotient(t0, t1, t2, u, x, m);
    if status != Ok {
      return;
    }
    status := TakeResidues(t0, t1, t2, x, m, y);
  }

  method TakeResidues(t0: KcBignum, t1: KcBignum, t2: KcBignum, x: KcBignum, m: KcBignum, ghost y: int)
    returns (status: Status)
    requires t0.Valid() && t1.Valid() && t2.Valid() && Separate(t0, t1) && Separate(t0, t2) && Separate(t1, t2)
    requires Separate(x, t0) && Separate(x, t1) && Separate(m, t0) && Separate(m, t1)
    requires x.Valid() && x.Trimmed() && x.sign == 0 && m.Valid() && m.sign == 0 && m.used + 1 <= MAX_BN_ELEMENTS
    requires t2.sign == 0 && y == t2.Abs() * m.Abs()
    modifies t0, t0.data, t1, t1.data
    ensures t0.Valid() && t1.Valid() && status == Ok
    ensures Holds(t0, x.Abs() % Pow(m.used + 1)) && Holds(t1, y % Pow(m.used + 1))
  {
    var k := m.used;
    PowIsPow2(k + 1);
    Mod2Pwr(t0, x, BN_BITS * (k + 1));
    status := Multiply(t1, t2, m, k + 1);
  }

  lemma RestTaken(x: nat, m: int, k: nat, y: int)
    requires m > 0 && k > 0 && y == Estimated(x, m, k) * m
    ensures (x - Rest(x, m, k)) % Pow(k + 1) == y % Pow(k + 1)
  {
    TakenResidue(x, y, Pow(k + 1));
  }

  lemma TakenResidue(x: int, y: int, p: int)
    requires p > 0
    ensures (x - Difference(x, y, p)) % p == y % p
  {
    var c := (x - y) / p;
    assert x - y == c * p + (x - y) % p;
    SameResidue(x - Difference(x, y, p), y, p, c);
  }

  lemma SameResidue(a: int, b: int, p: int, c: int)
    requires p > 0 && a == b + c * p
    ensures a % p == b % p
  {
    var q := b / p;
    assert b == q * p + b % p;
    DistributeSum(q, c, p);
    DivModUnique(a, p, q + c, b % p);
  }

  /** The second half: the difference of the residues, made positive, and the correction loop, for the rest `v` and the
      number `w` of limbs written. */
  method FinishReduction(r: KcBignum, t0: KcBignum, t1: KcBignum, m: KcBignum, ghost x: nat, ghost v: nat, ghost w: nat)
    returns (status: Status, ghost count: nat)
    requires r.Valid() && Proper(r.limbs, MAX_BN_ELEMENTS)
    requires m.Valid() && m.Trimmed() && m.sign == 0 && m.Clean() && 0 < m.used && 2 * m.used < MAX_BN_ELEMENTS
    requires Pow(m.used - 1) <= m.Abs() < Pow(m.used) && v < Pow(m.used + 1) && w == Written(x, v, m.used)
    requires Separate(r, t0) && Separate(r, t1) && Separate(t0, t1)
    requires Separate(r, m) && Separate(m, t0) && Separate(m, t1)
    requires Holds(t0, x % Pow(m.used + 1)) && Holds(t1, (x - v) % Pow(m.used + 1))
    modifies r, r.data, t0, t0.data
    ensures r.Valid() && t0.Valid() && w <= MAX_BN_ELEMENTS && m.Abs() > 0
    ensures status == if Reduces(old(r.limbs), v, w, m.Abs(), m.used) then Ok else BadBignumber
    ensures status == Ok ==> r.Trimmed() && r.Value() == Residue(old(r.limbs), v, w, m.Abs()) == v - count * m.Abs()
  {
    var k := m.used;
    ghost var M, R0, n1 := m.Abs(), r.limbs, t0.used;
    DigitsUnique(t0.limbs, t0.used);
    count := 0;
    status := RecoverRemainder(r, t0, t1, k, x, x - v, if x % Pow(k + 1) < (x - v) % Pow(k + 1) then k + 2 else n1);
    if status != Ok {
      return;
    }
    CorrectsIsReduces(R0, r.limbs, v, r.used, w, M, k);
    status, count := CorrectRemainder(r, m);
  }

  lemma RestCongruent(x: nat, m: int, k: nat)
    requires 0 < k < MAX_BN_ELEMENTS && Pow(k - 1) <= m < Pow(k) && 0 < x < Pow(2 * k)
    ensures Rest(x, m, k) % m == x % m && Rest(x, m, k) <= x
    ensures m > Pow(k - 1) ==> Rest(x, m, k) < 4 * m
  {
    if m == Pow(k - 1) {
      RestOfPower(x, k);
    } else {
      RestIsSmall(x, m, k);
    }
  }

  lemma FewRounds(v: int, z: int, m: int, count: nat, small: bool)
    requires m > 0 && v >= 0 && z == v - count * m && -m < z && (small ==> v < 4 * m) && (z < 0 ==> v < m)
    ensures small ==> count <= 3
  {
    if count >= 4 {
      MulLe(4, count, m);
    }
  }

  lemma Congruent(x: int, m: int, q: int)
    requires m > 0
    ensures (x - q * m) % m == x % m
  {
    assert x == (x / m) * m + x % m;
    var d := x / m - q;
    assert d * m == (x / m) * m - q * m;
    DivModUnique(x - q * m, m, d, x % m);
  }
}
