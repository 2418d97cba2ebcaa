/** The division routine: normalisation, the digit loop, and scaling the remainder back. */
module BnDiv {
  import opened Word
  import opened Limbs
  import opened BigNum
  import opened BnAddSub
  import opened BnShift
  import opened BnBits
  import opened BnDivide
  import opened DigitEstimate

  /** A number of 28t + 27 bits has t + 1 limbs, the top one with 27 bits. */
  lemma NormalisedFromBits(s: seq<uint32>, used: nat, t: nat)
    requires used <= |s| && Proper(s, used) && (used > 0 ==> s[used - 1] != 0)
    requires Pow2(BN_BITS * t + 26) <= Val(s, used) < Pow2(BN_BITS * t + 27)
    ensures used == t + 1 && HALF_TOP <= s[t] < 2 * HALF_TOP
  {
    var p, v := Pow(t), Val(s, used);
    TwoToThe26();
    Pow2Limbs(t, 26);
    Pow2Limbs(t, 27);
    LengthFromBounds(s, used, t);
    ValBound(s, t);
    TopFits(Val(s, t), s[t], p, v);
  }

  /** The length of a canonical numeral follows from its value. */
  lemma LengthFromBounds(s: seq<uint32>, used: nat, t: nat)
    requires used <= |s| && Proper(s, used) && (used > 0 ==> s[used - 1] != 0)
    requires Pow(t) <= Val(s, used) < Pow(t + 1)
    ensures used == t + 1
  {
    ValBound(s, used);
    if used <= t {
      PowMono(used, t);
    } else if used > t + 1 {
      PowMono(t + 1, used - 1);
      ValLower(s, used - 1, used);
      MulLe(1, s[used - 1], Pow(used - 1));
    }
  }

  lemma TwoToThe26()
    ensures Pow2(26) == HALF_TOP && Pow2(27) == 2 * HALF_TOP
  {
    assert Pow2(13) == 8192;
    Pow2Add(13, 13);
  }

  lemma TopFits(low: int, top: int, p: int, v: int)
    requires p > 0 && 0 <= low
    requires v == low + top * p && p * HALF_TOP <= v < p * (2 * HALF_TOP)
    requires low < p
    ensures HALF_TOP <= top < 2 * HALF_TOP
  {
    if top < HALF_TOP {
      MulLe(top + 1, HALF_TOP, p);
    }
    if top >= 2 * HALF_TOP {
      MulLe(2 * HALF_TOP, top, p);
    }
  }

  /** The shift that brings the divisor to 27 bits in its top limb. */
  lemma ShiftNormalises(v: int, count: nat, shift: nat)
    requires count > 0 && Pow2(count - 1) <= v < Pow2(count)
    requires (count + shift) % BN_BITS == BN_BITS - 1
    ensures var t := (count + shift) / BN_BITS;
            Pow2(BN_BITS * t + 26) <= Shl(v, shift) < Pow2(BN_BITS * t + 27)
  {
    var t := (count + shift) / BN_BITS;
    assert count + shift == BN_BITS * t + 27;
    ShlIsProduct(v, shift);
    Pow2Add(count, shift);
    Pow2Add(count - 1, shift);
    assert count - 1 + shift == BN_BITS * t + 26;
    MulLe(Pow2(count - 1), v, Pow2(shift));
    MulLe(v + 1, Pow2(count), Pow2(shift));
    DistributeSum(v, 1, Pow2(shift));
  }

  /** The shift that brings the top limb of the divisor to 27 bits. */
  ghost function ScalingShift(b: KcBignum): (shift: nat)
    requires b.used <= |b.limbs|
    reads b
    ensures shift < BN_BITS
  {
    if b.used == 0 then 0 else (BN_BITS - 1 - BitsOf(b.limbs[b.used - 1]) % BN_BITS) % BN_BITS
  }

  /** The scaled dividend has at most 80 limbs; all dividends of fewer limbs meet this. */
  ghost predicate Scalable(a: KcBignum, b: KcBignum)
    requires a.used <= |a.limbs| && b.used <= |b.limbs|
    reads a, b
  {
    ShiftFits(a, ScalingShift(b))
  }

  lemma ShortIsScalable(a: KcBignum, b: KcBignum)
    requires a.used <= |a.limbs| && b.used <= |b.limbs| && a.used < MAX_BN_ELEMENTS
    ensures Scalable(a, b)
  {
    DivModUnique(ScalingShift(b), BN_BITS, 0, ScalingShift(b));
  }

  /** A dividend of all 80 limbs is scalable exactly when its scaled value still has 80 limbs. */
  lemma ScalableExactly(a: KcBignum, b: KcBignum)
    requires a.Valid() && a.used == MAX_BN_ELEMENTS && b.used <= |b.limbs|
    ensures Scalable(a, b) <==> Shl(a.Abs(), ScalingShift(b)) < Pow(a.used)
  {
    var s, n := ScalingShift(b), a.used - 1;
    DivModUnique(s, BN_BITS, 0, s);
    Pow2Base();
    Pow2Add(s, BN_BITS - s);
    ShlIsProduct(a.Abs(), s);
    ValBound(a.limbs, n);
    CarryOut(Val(a.limbs, n), a.limbs[n], Pow(n), Pow2(s), Pow2(BN_BITS - s));
  }

  lemma CarryOut(low: int, top: nat, w: int, p: int, q: int)
    requires 0 <= low < w && p > 0 && q > 0 && p * q == BASE
    ensures top / q == 0 <==> (low + top * w) * p < BASE * w
  {
    if top < q {
      DivModUnique(top, q, 0, top);
      MulLe(top + 1, q, w);
      MulLe(low + top * w + 1, q * w, p);
      assert (q * w) * p == (p * q) * w;
      DistributeSum(low + top * w, 1, p);
    } else {
      MulLe(q, top, w);
      MulLe(q * w, low + top * w, p);
      assert (q * w) * p == (p * q) * w;
    }
  }

  /** The divisor can be scaled when the dividend can. */
  lemma DivisorFits(a: KcBignum, b: KcBignum, shift: nat)
    requires a.Valid() && b.Valid() && a.Trimmed() && a.Abs() > b.Abs() && a.used >= b.used && shift < BN_BITS
    requires ShiftFits(a, shift)
    ensures ShiftFits(b, shift)
  {
    DivModUnique(shift, BN_BITS, 0, shift);
    if b.used == MAX_BN_ELEMENTS {
      var n := b.used - 1;
      TopOrder(a.limbs, b.limbs, n);
      QuotientZero(a.limbs[n], b.limbs[n], Pow2(BN_BITS - shift % BN_BITS));
    }
  }

  lemma TopOrder(s: seq<uint32>, t: seq<uint32>, n: nat)
    requires n < |s| && n < |t| && Proper(s, n + 1) && Proper(t, n + 1) && Val(s, n + 1) > Val(t, n + 1)
    ensures s[n] >= t[n]
  {
    ValBound(s, n);
    ValBound(t, n);
    if s[n] < t[n] {
      MulLe(s[n] + 1, t[n], Pow(n));
      DistributeSum(s[n], 1, Pow(n));
    }
  }

  lemma QuotientZero(x: nat, y: nat, p: int)
    requires p > 0 && y <= x && x / p == 0
    ensures y / p == 0
  {
    assert x < p;
    DivModUnique(y, p, 0, y);
  }

  /** The shift found from the bit count is the one that the top limb asks for. */
  lemma ShiftFromCount(used: nat, bits: nat)
    requires used > 0
    ensures var s := ((used - 1) * BN_BITS + bits) % BN_BITS;
            (if s < BN_BITS - 1 then BN_BITS - 1 - s else 0) == (BN_BITS - 1 - bits % BN_BITS) % BN_BITS
    ensures var count := (used - 1) * BN_BITS + bits;
            (count + (BN_BITS - 1 - bits % BN_BITS) % BN_BITS) % BN_BITS == BN_BITS - 1
  {
  }

  /** The bits of the divisor in its top limb, from which the shift follows. */
  method TopBits(b: KcBignum) returns (bits: nat)
    requires b.Valid() && b.Trimmed() && b.used > 0
    ensures bits < BN_BITS && ScalingShift(b) == if bits < BN_BITS - 1 then BN_BITS - 1 - bits else 0
    ensures exists t: nat :: Pow2(BN_BITS * t + 26) <= Shl(b.Abs(), ScalingShift(b)) < Pow2(BN_BITS * t + 27)
  {
    var count := BitCount(b);
    ShiftFromCount(b.used, BitsOf(b.limbs[b.used - 1]));
    bits := count % BN_BITS;
    ShiftNormalises(b.Abs(), count, ScalingShift(b));
  }

  /** Scales both operands by the shift that the bits of the divisor ask for. */
  method ScaleBoth(x: KcBignum, y: KcBignum, a: KcBignum, b: KcBignum, bits: nat)
    returns (status: Status, shift: nat)
    requires x.Valid() && y.Valid() && a.Valid() && b.Valid() && Separate(x, y)
    requires Separate(x, a) && Separate(x, b) && Separate(y, a) && Separate(y, b)
    requires a.Trimmed() && b.Trimmed() && a.sign == 0 && b.sign == 0
    requires bits < BN_BITS - 1 ==> ShiftFits(a, BN_BITS - 1 - bits) && ShiftFits(b, BN_BITS - 1 - bits)
    modifies x, x.data, y, y.data
    ensures shift == (if bits < BN_BITS - 1 then BN_BITS - 1 - bits else 0)
    ensures status == Ok && x.Valid() && y.Valid()
    ensures x.Trimmed() && x.sign == 0 && x.Abs() == Shl(a.Abs(), shift)
    ensures y.Trimmed() && y.sign == 0 && y.Abs() == Shl(b.Abs(), shift)
  {
    if bits < BN_BITS - 1 {
      shift := BN_BITS - 1 - bits;
      status := ShiftBitsL(y, b, shift);
      if status != Ok {
        return;
      }
      status := ShiftBitsL(x, a, shift);
    } else {
      Copy(x, a);
      Copy(y, b);
      shift := 0;
      status := Ok;
    }
  }

  /** Scales dividend and divisor so that the divisor is normalised. */
  method Normalise(x: KcBignum, y: KcBignum, a: KcBignum, b: KcBignum) returns (status: Status, shift: nat)
    requires x.Valid() && y.Valid() && a.Valid() && b.Valid() && Separate(x, y)
    requires Separate(x, a) && Separate(x, b) && Separate(y, a) && Separate(y, b)
    requires a.Trimmed() && b.Trimmed() && a.sign == 0 && b.sign == 0
    requires 0 < b.used <= a.used && a.Abs() > b.Abs() && Scalable(a, b)
    modifies x, x.data, y, y.data
    ensures status == Ok && shift == ScalingShift(b)
    ensures x.Valid() && x.Trimmed() && x.sign == 0 && x.Abs() == Shl(a.Abs(), shift)
    ensures y.used > 0 && Normalised(y, y.used - 1) && y.Abs() == Shl(b.Abs(), shift)
  {
    var bits := TopBits(b);
    DivisorFits(a, b, ScalingShift(b));
    ghost var t: nat :| Pow2(BN_BITS * t + 26) <= Shl(b.Abs(), ScalingShift(b)) < Pow2(BN_BITS * t + 27);
    status, shift := ScaleBoth(x, y, a, b, bits);
    NormalisedFromBits(y.limbs, y.used, t);
  }

  /** Clears the `n` limbs of the quotient. */
  method ClearQuotient(q: KcBignum, n: nat)
    requires q.Synced() && n <= MAX_BN_ELEMENTS
    modifies q, q.data
    ensures q.Valid() && q.used == n && q.sign == 0 && ZeroFrom(q.limbs, 0, n)
  {
    q.used, q.sign := n, 0;
    for i := 0 to n
      invariant q.used == n && q.sign == 0
      invariant forall k :: 0 <= k < i ==> q.data[k] == 0
    {
      q.data[i] := 0;
    }
    q.limbs := q.data[..];
  }

  /** The lengths after normalisation: the quotient has at least the n limbs that are reserved for it. */
  lemma QuotientLength(xs: seq<uint32>, xUsed: nat, ys: seq<uint32>, yUsed: nat,
                       a: seq<uint32>, aUsed: nat, b: seq<uint32>, bUsed: nat, shift: nat)
    requires xUsed <= |xs| && yUsed <= |ys| && aUsed <= |a| && bUsed <= |b| && shift < BN_BITS
    requires Proper(xs, xUsed) && (xUsed > 0 ==> xs[xUsed - 1] != 0)
    requires Proper(ys, yUsed) && (yUsed > 0 ==> ys[yUsed - 1] != 0)
    requires Proper(a, aUsed) && (aUsed > 0 ==> a[aUsed - 1] != 0) && Proper(b, bUsed)
    requires Val(xs, xUsed) == Shl(Val(a, aUsed), shift) && Val(ys, yUsed) == Shl(Val(b, bUsed), shift)
    requires Val(a, aUsed) > Val(b, bUsed)
    ensures xUsed >= yUsed && xUsed >= aUsed && yUsed <= bUsed + 1
  {
    ShlOrder(Val(a, aUsed), Val(b, bUsed), shift);
    CanonicalLength(xs, xUsed, a, aUsed);
    CanonicalLength(xs, xUsed, ys, yUsed);
    ShlGrowth(ys, yUsed, b, bUsed, shift);
  }

  lemma ShlOrder(a: int, b: int, shift: nat)
    requires a > b >= 0
    ensures Shl(a, shift) > Shl(b, shift) && Shl(a, shift) >= a
  {
    ShlIsProduct(a, shift);
    ShlIsProduct(b, shift);
    MulLe(1, Pow2(shift), a);
    MulLe(b + 1, a, Pow2(shift));
    DistributeSum(b, 1, Pow2(shift));
  }

  lemma ShlLessThanLimb(v: int, shift: nat)
    requires v >= 0 && shift < BN_BITS
    ensures Shl(v, shift) <= BASE * v
  {
    ShlIsProduct(v, shift);
    Pow2Base();
    Pow2Mono(shift, BN_BITS);
    MulLe(Pow2(shift), BASE, v);
  }

  lemma ShlGrowth(ys: seq<uint32>, yUsed: nat, b: seq<uint32>, bUsed: nat, shift: nat)
    requires yUsed <= |ys| && bUsed <= |b| && shift < BN_BITS && Proper(b, bUsed)
    requires yUsed > 0 ==> ys[yUsed - 1] != 0
    requires Val(ys, yUsed) == Shl(Val(b, bUsed), shift)
    ensures yUsed <= bUsed + 1
  {
    var v := Val(b, bUsed);
    ValBound(b, bUsed);
    ShlLessThanLimb(v, shift);
    if yUsed > bUsed + 1 {
      PowMono(bUsed + 1, yUsed - 1);
      ValLower(ys, yUsed - 1, yUsed);
      MulLe(1, ys[yUsed - 1], Pow(yUsed - 1));
    }
  }

  /** The leading loop of the division, which gives the top digit. */
  method LeadingDigit(x: KcBignum, y: KcBignum, q: KcBignum, tmp: KcBignum, ghost n: nat)
    returns (status: Status, ghost qs: seq<uint32>)
    requires Separate(x, y) && Separate(x, q) && Separate(x, tmp)
    requires Separate(y, q) && Separate(y, tmp) && Separate(q, tmp)
    requires x.Valid() && x.Trimmed() && x.sign == 0 && q.Synced() && tmp.Valid()
    requires 0 < y.used <= x.used && Normalised(y, y.used - 1)
    requires n <= x.used - y.used + 1 && ZeroFrom(q.limbs, 0, n)
    modifies x, x.data, q`limbs, q.data, tmp, tmp.data
    ensures status == Ok
    ensures x.Valid() && x.Trimmed() && x.sign == 0 && q.Synced() && tmp.Valid()
    ensures x.used > 0 ==> ZeroFrom(x.limbs, x.used, old(x.used))
    ensures |qs| == old(x.used) - y.used + 1 && Agrees(q.limbs, qs, n)
    ensures Progress(old(x.Abs()), y.Abs(), qs, x.Abs(), old(x.used) - y.used)
  {
    var top, t := x.used - 1, y.used - 1;
    ghost var a, Y, m := x.Abs(), y.Abs(), x.used;
    status := ShiftDigL(tmp, y, top - t);
    if status != Ok {
      qs := [];
      return;
    }
    TopCount(x.limbs, x.used, y.limbs, t);
    ghost var Q := q.limbs;
    ghost var count := SubtractTop(x, tmp, q, top - t, m);
    qs := FirstDigits(top - t, count);
    FirstProgress(a, Y, top - t, count, x.Abs());
    AgreesAtFirst(Q, q.limbs, n, top - t, count);
  }

  /** The digits produced by the division loops: `qs` is the whole quotient, of which `q` holds the `n` low limbs. */
  method DivideDigits(x: KcBignum, y: KcBignum, q: KcBignum, tmp: KcBignum, tmp1: KcBignum, tmp2: KcBignum,
                      ghost n: nat) returns (status: Status, ghost qs: seq<uint32>)
    requires AllSeparate(x, y, q, tmp, tmp1, tmp2)
    requires x.Valid() && x.Trimmed() && x.sign == 0 && q.Synced() && tmp.Valid() && tmp1.Valid() && tmp2.Valid()
    requires 0 < y.used <= x.used && Normalised(y, y.used - 1)
    requires n <= x.used - y.used + 1 && ZeroFrom(q.limbs, 0, n)
    modifies x, x.data, q`limbs, q.data, tmp, tmp.data, tmp1, tmp1.data, tmp2, tmp2.data
    ensures status == Ok
    ensures x.Valid() && x.Trimmed() && x.sign == 0 && q.Synced() && tmp.Valid() && tmp1.Valid() && tmp2.Valid()
    ensures n <= |qs| && Progress(old(x.Abs()), y.Abs(), qs, x.Abs(), 0) && Agrees(q.limbs, qs, n)
  {
    var top, t := x.used - 1, y.used - 1;
    ghost var a, m := x.Abs(), x.used;
    status, qs := LeadingDigit(x, y, q, tmp, n);
    if status != Ok {
      return;
    }
    var i := top;
    while i >= t + 1
      invariant t <= i <= top && status == Ok
      invariant x.Valid() && x.Trimmed() && x.sign == 0 && q.Synced() && tmp.Valid() && tmp1.Valid() && tmp2.Valid()
      invariant x.used > 0 ==> ZeroFrom(x.limbs, x.used, m)
      invariant Progress(a, y.Abs(), qs, x.Abs(), i - t) && Agrees(q.limbs, qs, n)
    {
      status, qs := DivideStep(x, y, q, tmp, tmp1, tmp2, i, t, m, n, a, qs);
      if status != Ok {
        return;
      }
      i := i - 1;
    }
  }

  /** The top digit and zeros below. */
  ghost function FirstDigits(top: nat, count: int): (qs: seq<uint32>)
    requires 0 <= count <= 3
    ensures |qs| == top + 1
  {
    seq(top, _ => 0) + [count]
  }

  /** After the leading loop. */
  lemma FirstProgress(a: int, y: int, top: nat, count: int, x: int)
    requires 0 <= count <= 3 && y > 0
    requires a == count * ShlLimbs(y, top) + x && 0 <= x < ShlLimbs(y, top)
    ensures Progress(a, y, FirstDigits(top, count), x, top)
  {
    var qs := FirstDigits(top, count);
    assert ZeroFrom(qs, 0, top);
    ValZeroTail(qs, 0, top);
    assert Val(qs, top + 1) == count * Pow(top);
    ShlLimbsIsProduct(y, top);
    MulAssoc(count, y, Pow(top));
  }

  lemma AgreesAtFirst(before: seq<uint32>, after: seq<uint32>, n: nat, top: nat, count: int)
    requires 0 <= count <= 3 && n <= top + 1 && top < |before| && n <= |before| && ZeroFrom(before, 0, n)
    requires after == before[top := Wrap32(before[top] as int + count)]
    ensures Agrees(after, FirstDigits(top, count), n)
  {
  }

  /** The dividend is less than four times the divisor shifted to its top. */
  lemma TopCount(xs: seq<uint32>, xUsed: nat, ys: seq<uint32>, t: nat)
    requires t < xUsed <= |xs| && t < |ys| && Proper(xs, xUsed) && Proper(ys, t + 1) && ys[t] >= HALF_TOP
    ensures 0 < ShlLimbs(Val(ys, t + 1), xUsed - 1 - t)
    ensures Val(xs, xUsed) < 4 * ShlLimbs(Val(ys, t + 1), xUsed - 1 - t)
  {
    NormalisedBounds(ys, t, xUsed - 1 - t);
    assert t + (xUsed - 1 - t) == xUsed - 1;
    ValBound(xs, xUsed);
    assert Pow(xUsed) == BASE * Pow(xUsed - 1);
  }

  /** The memory of a number that may be absent. */
  ghost function Footprint(p: KcBignum?): set<object> {
    if p == null then {} else {p, p.data}
  }

  /** Three numbers with buffers of their own. */
  method ThreeNumbers() returns (a: KcBignum, b: KcBignum, c: KcBignum)
    ensures fresh({a, a.data, b, b.data, c, c.data})
    ensures a.Valid() && b.Valid() && c.Valid() && Separate(a, b) && Separate(a, c) && Separate(b, c)
  {
    a := new KcBignum();
    b := new KcBignum();
    c := new KcBignum();
  }

  /** Scratch memory for division: six numbers with their own buffers. */
  class DivScratch {
    const x: KcBignum
    const y: KcBignum
    const q: KcBignum
    const tmp: KcBignum
    const tmp1: KcBignum
    const tmp2: KcBignum
    ghost const memory: set<object>

    constructor ()
      ensures Valid() && fresh(memory)
    {
      var n0, n1, n2 := ThreeNumbers();
      var n3, n4, n5 := ThreeNumbers();
      x, y, q, tmp, tmp1, tmp2 := n0, n1, n2, n3, n4, n5;
      memory := {n0, n0.data, n1, n1.data, n2, n2.data} + {n3, n3.data, n4, n4.data, n5, n5.data};
    }

    ghost predicate Valid()
      reads memory
    {
      && x in memory && x.data in memory && y in memory && y.data in memory && q in memory && q.data in memory
      && tmp in memory && tmp.data in memory && tmp1 in memory && tmp1.data in memory
      && tmp2 in memory && tmp2.data in memory
      && AllSeparate(x, y, q, tmp, tmp1, tmp2)
      && x.Valid() && y.Valid() && q.Synced() && tmp.Valid() && tmp1.Valid() && tmp2.Valid()
    }
  }

  /** What the quotient output holds: a div b, cut to the limbs reserved for it when a > b. */
  ghost function QuotientLimbs(a: int, b: int, n: int): int
    requires b != 0
  {
    if a <= b || n < 0 then a / b else (a / b) % Pow(n)
  }

  /** The scaled division gives the quotient, and the remainder scaled by the same factor. */
  lemma Unscale(a: int, b: int, shift: nat, quotient: int, rest: int)
    requires a >= 0 && b > 0
    requires Shl(a, shift) == Shl(b, shift) * quotient + rest && 0 <= rest < Shl(b, shift)
    ensures quotient == a / b && rest / Pow2(shift) == a % b
  {
    ShlIsProduct(a, shift);
    ShlIsProduct(b, shift);
    Unscaled(a, b, Pow2(shift), quotient, rest);
  }

  lemma Unscaled(a: int, b: int, p: int, quotient: int, rest: int)
    requires b > 0 && p > 0
    requires a * p == (b * p) * quotient + rest && 0 <= rest < b * p
    ensures quotient == a / b && rest / p == a % b
  {
    var r := a - quotient * b;
    assert rest == r * p by {
      assert (b * p) * quotient == (quotient * b) * p;
      assert r * p == a * p - (quotient * b) * p;
    }
    if r < 0 {
      MulLe(r, -1, p);
    }
    if r >= b {
      MulLe(b, r, p);
    }
    DivModUnique(a, b, quotient, r);
    DivModUnique(rest, p, r, 0);
  }

  /** Clears the quotient and scales the operands; the quotient has at least the limbs reserved for it. */
  method ScaleOperands(x: KcBignum, y: KcBignum, q: KcBignum, a: KcBignum, b: KcBignum)
    returns (status: Status, shift: nat)
    requires Separate(x, y) && Separate(x, q) && Separate(y, q)
    requires {a, a.data, b, b.data} !! {x, x.data, y, y.data, q, q.data}
    requires x.Valid() && y.Valid() && q.Synced()
    requires a.Valid() && a.Trimmed() && a.sign == 0 && b.Valid() && b.Trimmed() && b.sign == 0
    requires 0 < b.used <= a.used && a.Abs() > b.Abs() && Scalable(a, b)
    modifies x, x.data, y, y.data, q, q.data
    ensures status == Ok && q.Valid() && q.sign == 0 && q.used == a.used - b.used && ZeroFrom(q.limbs, 0, q.used)
    ensures x.Valid() && x.Trimmed() && x.sign == 0 && x.Abs() == Shl(a.Abs(), shift)
    ensures 0 < y.used <= x.used && Normalised(y, y.used - 1) && y.Abs() == Shl(b.Abs(), shift)
    ensures a.used - b.used <= x.used - y.used + 1
  {
    ClearQuotient(q, a.used - b.used);
    status, shift := Normalise(x, y, a, b);
    if status != Ok {
      return;
    }
    QuotientLength(x.limbs, x.used, y.limbs, y.used, a.limbs, a.used, b.limbs, b.used, shift);
  }

  /** The general case of the division, a > b, on scratch numbers. */
  method DivideNumbers(x: KcBignum, y: KcBignum, q: KcBignum, tmp: KcBignum, tmp1: KcBignum, tmp2: KcBignum,
                       a: KcBignum, b: KcBignum) returns (status: Status, shift: nat)
    requires AllSeparate(x, y, q, tmp, tmp1, tmp2)
    requires {a, a.data, b, b.data} !!
             {x, x.data, y, y.data, q, q.data, tmp, tmp.data, tmp1, tmp1.data, tmp2, tmp2.data}
    requires x.Valid() && y.Valid() && q.Synced() && tmp.Valid() && tmp1.Valid() && tmp2.Valid()
    requires a.Valid() && a.Trimmed() && a.sign == 0 && b.Valid() && b.Trimmed() && b.sign == 0
    requires 0 < b.used <= a.used && a.Abs() > b.Abs() && b.Abs() > 0 && Scalable(a, b)
    modifies x, x.data, y, y.data, q, q.data, tmp, tmp.data, tmp1, tmp1.data, tmp2, tmp2.data
    ensures status == Ok && x.Valid() && y.Valid() && q.Valid() && tmp.Valid() && tmp1.Valid() && tmp2.Valid()
    ensures q.used == a.used - b.used && q.sign == 0
    ensures q.Abs() == (a.Abs() / b.Abs()) % Pow(a.used - b.used)
    ensures x.Trimmed() && x.sign == 0 && x.Abs() / Pow2(shift) == a.Abs() % b.Abs()
  {
    status, shift := ScaleOperands(x, y, q, a, b);
    if status != Ok {
      return;
    }
    ghost var n, scaledA, scaledB, qs := q.used, x.Abs(), y.Abs(), [];
    status, qs := DivideDigits(x, y, q, tmp, tmp1, tmp2, n);
    if status != Ok {
      return;
    }
    DividedValue(a.Abs(), b.Abs(), shift, scaledA, scaledB, qs, x.Abs(), q.limbs, n);
  }

  /** The general case of the division, a > b: quotient limbs in `scratch.q`, scaled remainder in `scratch.x`. */
  method DivideScaled(scratch: DivScratch, a: KcBignum, b: KcBignum) returns (status: Status, shift: nat)
    requires scratch.Valid()
    requires {a, a.data, b, b.data} !! scratch.memory
    requires a.Valid() && a.Trimmed() && a.sign == 0 && b.Valid() && b.Trimmed() && b.sign == 0
    requires 0 < b.used <= a.used && a.Abs() > b.Abs() && Scalable(a, b)
    modifies scratch.memory
    ensures status == Ok && scratch.Valid()
    ensures scratch.q.Valid() && scratch.q.used == a.used - b.used && scratch.q.sign == 0
    ensures b.Abs() > 0 && scratch.q.Abs() == (a.Abs() / b.Abs()) % Pow(a.used - b.used)
    ensures scratch.x.Trimmed() && scratch.x.sign == 0 && scratch.x.Abs() / Pow2(shift) == a.Abs() % b.Abs()
  {
    PositiveWhenUsed(b.limbs, b.used);
    status, shift := DivideNumbers(scratch.x, scratch.y, scratch.q, scratch.tmp, scratch.tmp1, scratch.tmp2, a, b);
  }

  lemma DividedValue(a: int, b: int, shift: nat, scaledA: int, scaledB: int, qs: seq<uint32>, x: int,
                     q: seq<uint32>, n: nat)
    requires a >= 0 && b > 0 && scaledA == Shl(a, shift) && scaledB == Shl(b, shift)
    requires Progress(scaledA, scaledB, qs, x, 0) && Agrees(q, qs, n)
    ensures Val(q, n) == (a / b) % Pow(n) && Proper(q, n)
    ensures x / Pow2(shift) == a % b
  {
    Unscale(a, b, shift, Val(qs, |qs|), x);
    ValDivMod(qs, n, |qs|);
    ValCong(q, qs, n);
  }

  /** The cases without digits: a < b and a = b. */
  method DivSmall(z: KcBignum?, a: KcBignum, b: KcBignum, r: KcBignum?, compare: uint32)
    requires Footprint(z) !! Footprint(r)
    requires z != null ==> z.Valid() && Apart(z, a) && Apart(z, b)
    requires r != null ==> r.Valid() && Apart(r, a) && Apart(r, b)
    requires a.Valid() && a.Trimmed() && a.sign == 0 && b.Valid()
    requires 0 < b.Abs() && compare == Order(a.Abs(), b.Abs()) && compare != BN_BIGGER
    modifies Footprint(z), Footprint(r)
    ensures z != null ==> Holds(z, old(a.Abs() / b.Abs()))
    ensures r != null ==> Holds(r, old(a.Abs() % b.Abs()))
  {
    ghost var A, B := a.Abs(), b.Abs();
    if compare == BN_SMALLER {
      DivModUnique(A, B, 0, A);
      if r != null {
        Copy(r, a);
      }
      if z != null {
        Zero(z);
      }
    } else {
      DivModUnique(A, B, 1, 0);
      if r != null {
        Zero(r);
      }
      if z != null {
        SetOne(z);
      }
    }
  }

  /** Hands out the quotient, and the remainder scaled back. */
  method Deliver(z: KcBignum?, q: KcBignum, r: KcBignum?, x: KcBignum, shift: nat)
    requires Footprint(z) !! Footprint(r) && {q, q.data, x, x.data} !! Footprint(z) + Footprint(r)
    requires (z != null ==> z.Valid()) && (r != null ==> r.Valid())
    requires q.Valid() && q.sign == 0 && x.Valid() && x.sign == 0
    modifies Footprint(z), Footprint(r)
    ensures z != null ==> Holds(z, q.Abs())
    ensures r != null ==> Holds(r, x.Abs() / Pow2(shift))
  {
    if z != null {
      Copy(z, q);
      Trim(z);
    }
    if r != null {
      ShiftBitsR(r, x, shift);
      Trim(r);
    }
  }

  /** The case a > b of the division. */
  method DivLarge(scratch: DivScratch, z: KcBignum?, a: KcBignum, b: KcBignum, r: KcBignum?) returns (status: Status)
    requires scratch.Valid()
    requires {a, a.data, b, b.data} !! scratch.memory
    requires Footprint(z) !! scratch.memory && Footprint(r) !! scratch.memory && Footprint(z) !! Footprint(r)
    requires (z != null ==> z.Valid()) && (r != null ==> r.Valid())
    requires a.Valid() && a.Trimmed() && a.sign == 0 && b.Valid() && b.Trimmed() && b.sign == 0
    requires 0 < b.used <= a.used && a.Abs() > b.Abs() && Scalable(a, b)
    modifies scratch.memory, Footprint(z), Footprint(r)
    ensures scratch.Valid() && status == Ok && old(b.Abs()) > 0
    ensures z != null ==> Holds(z, old((a.Abs() / b.Abs()) % Pow(a.used - b.used)))
    ensures r != null ==> Holds(r, old(a.Abs() % b.Abs()))
  {
    PositiveWhenUsed(b.limbs, b.used);
    var shift;
    status, shift := DivideScaled(scratch, a, b);
    Deliver(z, scratch.q, r, scratch.x, shift);
  }

  /** z = a div b and r = a mod b, each only if wanted; `z` and `r` may be the operands. The quotient has only
      as many limbs as the operands differ in. */
  method Div(scratch: DivScratch, z: KcBignum?, a: KcBignum, b: KcBignum, r: KcBignum?) returns (status: Status)
    requires scratch.Valid()
    requires {a, a.data, b, b.data} !! scratch.memory && Apart(a, b)
    requires Footprint(z) !! scratch.memory && Footprint(r) !! scratch.memory && Footprint(z) !! Footprint(r)
    requires z != null ==> z.Valid() && Apart(z, a) && Apart(z, b)
    requires r != null ==> r.Valid() && Apart(r, a) && Apart(r, b)
    requires a.Valid() && a.Trimmed() && a.sign == 0 && b.Valid() && b.Trimmed() && b.sign == 0
    requires a.Abs() > b.Abs() ==> Scalable(a, b)
    modifies scratch.memory, Footprint(z), Footprint(r)
    ensures scratch.Valid()
    ensures (z != null ==> z.Valid()) && (r != null ==> r.Valid())
    ensures old(b.used) == 0 ==> status == InvalidParameter
    ensures old(b.used) > 0 ==> status == Ok && old(b.Abs()) > 0
    ensures status == Ok && z != null ==>
      Holds(z, old(QuotientLimbs(a.Abs(), b.Abs(), a.used - b.used)))
    ensures status == Ok && r != null ==> Holds(r, old(a.Abs() % b.Abs()))
  {
    if b.used == 0 {
      return InvalidParameter;
    }
    PositiveWhenUsed(b.limbs, b.used);
    CanonicalLength(a.limbs, a.used, b.limbs, b.used);
    var compare := if a.used == 0 then BN_SMALLER else BN_EQUAL;
    if a.used != 0 {
      compare := Compare(a, b);
    }
    if compare != BN_BIGGER {
      DivSmall(z, a, b, r, compare);
      return Ok;
    }
    status := DivLarge(scratch, z, a, b, r);
  }

  lemma PositiveWhenUsed(s: seq<uint32>, used: nat)
    requires 0 < used <= |s| && s[used - 1] != 0
    ensures Val(s, used) > 0
  {
    ValLower(s, used - 1, used);
    MulLe(1, s[used - 1], Pow(used - 1));
  }

  method SetOne(z: KcBignum)
    requires z.Valid()
    modifies z, z.data
    ensures Holds(z, 1)
  {
    z.used, z.sign := 1, 0;
    z.data[0] := 1;
    z.limbs := z.data[..];
    assert Val(z.limbs, 1) == Val(z.limbs, 0) + z.limbs[0] * Pow(0);
  }
}
