/** Long division of big numbers, HAC Algorithm 14.20. */
module BnDivide {
  import opened Word
  import opened Limbs
  import opened BigNum
  import opened BnAddSub
  import opened BnShift
  import opened BnBits
  import opened BnMultiply
  import opened DigitEstimate
  import opened TopLimbs
  import opened DigitSearch

  /** Two different structures with their own limb buffers. */
  ghost predicate Separate(x: KcBignum, y: KcBignum) {
    x != y && x.data != y.data
  }

  /** Loads one, two or three given limbs; the number of limbs in use is fixed, leading zeros included. */
  method SetDigits(bn: KcBignum, digits: seq<uint32>)
    requires bn.Valid() && |digits| <= 3 && Proper(digits, |digits|)
    modifies bn, bn.data
    ensures bn.Valid() && bn.used == |digits| && bn.sign == 0
    ensures forall k :: 0 <= k < |digits| ==> bn.limbs[k] == digits[k]
    ensures bn.Abs() == Few(digits)
  {
    Zero(bn);
    for i := 0 to |digits|
      invariant bn.sign == 0
      invariant forall k :: 0 <= k < i ==> bn.data[k] == digits[k]
    {
      bn.data[i] := digits[i];
    }
    bn.limbs := bn.data[..];
    bn.used := |digits|;
    ValCong(bn.limbs, digits, |digits|);
    FewDigits(digits);
  }

  /** The value of up to three limbs. */
  function Few(s: seq<uint32>): int
    requires |s| <= 3
  {
    if |s| == 0 then 0
    else if |s| == 1 then s[0]
    else if |s| == 2 then s[1] * BASE + s[0]
    else s[2] * (BASE * BASE) + s[1] * BASE + s[0]
  }

  lemma FewDigits(s: seq<uint32>)
    requires |s| <= 3
    ensures Val(s, |s|) == Few(s)
  {
    assert Pow(0) == 1 && Pow(1) == BASE && Pow(2) == BASE * BASE;
    if |s| >= 1 {
      assert Val(s, 1) == Val(s, 0) + s[0] * Pow(0);
    }
    if |s| >= 2 {
      assert Val(s, 2) == Val(s, 1) + s[1] * Pow(1);
    }
    if |s| >= 3 {
      assert Val(s, 3) == Val(s, 2) + s[2] * Pow(2);
    }
  }

  /** The test of step 3.2: does the guess `g`, times the two top limbs of the divisor, exceed the three top
      limbs of the remainder? The comparison goes by lengths first and the remainder's limbs are not trimmed,
      so a negative answer is only numeric when its top limb is not zero. Leaves the guess in `tmp2`. */
  method TestDigit(tmp: KcBignum, tmp1: KcBignum, tmp2: KcBignum, g: uint32,
                   y1: uint32, yt: uint32, x0: uint32, x1: uint32, x2: uint32)
    returns (status: Status, compare: uint32)
    requires tmp.Valid() && tmp1.Valid() && tmp2.Valid()
    requires Separate(tmp, tmp1) && Separate(tmp, tmp2) && Separate(tmp1, tmp2)
    requires g < BASE && y1 < BASE && 0 < yt < BASE && x0 < BASE && x1 < BASE && x2 < BASE
    modifies tmp, tmp.data, tmp1, tmp1.data, tmp2, tmp2.data
    ensures status == Ok
    ensures tmp.Valid() && tmp1.Valid() && tmp2.Valid()
    ensures Holding(tmp2, g)
    ensures compare == BN_BIGGER ==> g * (yt * BASE + y1) > x2 * (BASE * BASE) + x1 * BASE + x0
    ensures compare != BN_BIGGER && x2 != 0 ==> g * (yt * BASE + y1) <= x2 * (BASE * BASE) + x1 * BASE + x0
  {
    SetDigits(tmp2, [g]);
    SetDigits(tmp1, [y1, yt]);
    status := Multiply(tmp, tmp1, tmp2, 0);
    Commute(g, yt * BASE + y1);
    SetDigits(tmp1, [x0, x1, x2]);
    compare := CompareGuess(tmp, tmp1);
  }

  lemma Commute(a: int, b: int)
    ensures a * b == b * a
  {
  }

  /** The comparison of the test: a trimmed product against three limbs that may have leading zeros. */
  method CompareGuess(product: KcBignum, top: KcBignum) returns (compare: uint32)
    requires product.Valid() && product.Trimmed() && top.Valid() && top.used == 3
    ensures compare == BN_BIGGER ==> product.Abs() > top.Abs()
    ensures compare != BN_BIGGER && top.limbs[2] != 0 ==> product.Abs() <= top.Abs()
  {
    compare := Compare(product, top);
    TestOutcome(product.limbs, product.used, top.limbs);
  }

  /** A trimmed numeral against three limbs that may have leading zeros. */
  lemma TestOutcome(s: seq<uint32>, n: nat, t: seq<uint32>)
    requires n <= |s| && 3 <= |t| && Proper(s, n) && Proper(t, 3)
    requires n > 0 ==> s[n - 1] != 0
    ensures n > 3 ==> Val(s, n) > Val(t, 3)
    ensures n < 3 && t[2] != 0 ==> Val(s, n) < Val(t, 3)
  {
    if n > 3 {
      LongerIsBigger(t, 3, s, n);
    } else if n < 3 && t[2] != 0 {
      LongerIsBigger(s, n, t, 3);
    }
  }

  /** `(v + 1) & BN_MASK` and `(v - 1) & BN_MASK` on a 32-bit register. */
  function Up(v: int): uint32 {
    Wrap32(v + 1) % BASE
  }

  function Down(v: int): uint32 {
    Wrap32(v - 1) % BASE
  }

  lemma DownAgain(g: int)
    requires 0 <= g < BASE
    ensures Down(Up(g)) == g
  {
  }

  lemma DownOne(g: int)
    requires 0 < g < BASE
    ensures Down(g) == g - 1
  {
  }

  /** The guess of step 3.1, from two limbs of the remainder over one limb of the divisor. */
  method GuessDigit(x2: uint32, x1: uint32, yt: uint32) returns (g: uint32)
    requires x2 < BASE && x1 < BASE && 0 < yt < BASE
    ensures x2 <= yt ==> g == FirstGuess(x2, x1, yt)
    ensures 0 <= g < BASE
  {
    if x2 == yt {
      g := BN_MASK;
    } else {
      var temp: uint64 := x2 as int * BASE;
      temp := temp + x1;
      DivNonNegative(temp, yt);
      temp := temp / yt;
      if temp > BN_MASK {
        temp := BN_MASK;
      }
      g := temp;
    }
  }

  lemma DivNonNegative(a: int, b: int)
    requires a >= 0 && b > 0
    ensures 0 <= a / b <= a
  {
    assert a == (a / b) * b + a % b;
    if a / b < 0 {
      MulLe(a / b, -1, b);
    } else {
      MulLe(1, b, a / b);
    }
  }

  /** Steps 3.1 and 3.2: digit `j` of the quotient, exact or one too large. Leaves it in `tmp2` as well. */
  method EstimateDigit(q: KcBignum, j: nat, tmp: KcBignum, tmp1: KcBignum, tmp2: KcBignum,
                       y1: uint32, yt: uint32, x0: uint32, x1: uint32, x2: uint32,
                       ghost xs: seq<uint32>, ghost i: nat, ghost ys: seq<uint32>, ghost t: nat, ghost w: int)
    returns (status: Status)
    requires q.Synced() && j < MAX_BN_ELEMENTS && tmp.Valid() && tmp1.Valid() && tmp2.Valid()
    requires Separate(tmp, tmp1) && Separate(tmp, tmp2) && Separate(tmp1, tmp2)
    requires Separate(q, tmp) && Separate(q, tmp1) && Separate(q, tmp2)
    requires Position(xs, i, ys, t, w)
    requires x2 == xs[i] && x1 == xs[i - 1] && x0 == LimbOrZero(xs, i - 2)
    requires yt == ys[t] && y1 == LimbOrZero(ys, t - 1)
    modifies q`limbs, q.data, tmp, tmp.data, tmp1, tmp1.data, tmp2, tmp2.data
    ensures status == Ok
    ensures q.Synced() && tmp.Valid() && tmp1.Valid() && tmp2.Valid()
    ensures tmp2.used == 1 && tmp2.sign == 0 && tmp2.Abs() < BASE
    ensures q.limbs == old(q.limbs)[j := tmp2.Abs()]
    ensures 0 <= Val(xs, i + 1) / w <= tmp2.Abs()
    ensures tmp2.Abs() * w < Val(xs, i + 1) + w
  {
    ghost var Q, d := q.limbs, Val(xs, i + 1) / w;
    FirstCandidate(xs, i, ys, t, w);
    var g := GuessDigit(x2, x1, yt);
    Put(q, j, g);
    Put(q, j, Up(q.data[j]));
    DownAgain(g);
    status := Ok;
    var compare := BN_BIGGER;
    while compare == BN_BIGGER
      invariant status == Ok
      invariant q.Synced() && tmp.Valid() && tmp1.Valid() && tmp2.Valid()
      invariant q.limbs == Q[j := q.limbs[j]] && q.limbs[j] < BASE
      invariant Candidate(d, if compare == BN_BIGGER then Down(q.limbs[j]) else q.limbs[j], x2, x1, yt)
      invariant compare != BN_BIGGER ==> Holding(tmp2, q.limbs[j])
      invariant compare != BN_BIGGER && xs[i] != 0 ==> q.limbs[j] * TopTwo(ys, t) <= TopThree(xs, i)
      decreases compare == BN_BIGGER, Down(q.limbs[j])
    {
      status, compare := LowerAndTest(q, j, tmp, tmp1, tmp2, y1, yt, x0, x1, x2);
      if status != Ok {
        return;
      }
      if compare == BN_BIGGER {
        LowerCandidate(xs, i, ys, t, w, q.limbs[j]);
        DownOne(q.limbs[j]);
      }
    }
    AcceptCandidate(xs, i, ys, t, w, q.limbs[j]);
  }

  ghost predicate Holding(bn: KcBignum, g: int)
    requires bn.used <= |bn.limbs|
    reads bn
  {
    bn.used == 1 && bn.sign == 0 && bn.Abs() == g
  }

  /** One round of the search: lower the digit by one and test it. */
  method LowerAndTest(q: KcBignum, j: nat, tmp: KcBignum, tmp1: KcBignum, tmp2: KcBignum,
                      y1: uint32, yt: uint32, x0: uint32, x1: uint32, x2: uint32)
    returns (status: Status, compare: uint32)
    requires q.Synced() && j < MAX_BN_ELEMENTS && tmp.Valid() && tmp1.Valid() && tmp2.Valid()
    requires Separate(tmp, tmp1) && Separate(tmp, tmp2) && Separate(tmp1, tmp2)
    requires Separate(q, tmp) && Separate(q, tmp1) && Separate(q, tmp2)
    requires y1 < BASE && 0 < yt < BASE && x0 < BASE && x1 < BASE && x2 < BASE
    modifies q`limbs, q.data, tmp, tmp.data, tmp1, tmp1.data, tmp2, tmp2.data
    ensures status == Ok
    ensures q.Synced() && tmp.Valid() && tmp1.Valid() && tmp2.Valid()
    ensures q.limbs == old(q.limbs)[j := Down(old(q.limbs[j]))]
    ensures Holding(tmp2, q.limbs[j])
    ensures compare == BN_BIGGER ==> q.limbs[j] * (yt * BASE + y1) > x2 * (BASE * BASE) + x1 * BASE + x0
    ensures compare != BN_BIGGER && x2 != 0 ==> q.limbs[j] * (yt * BASE + y1) <= x2 * (BASE * BASE) + x1 * BASE + x0
  {
    Put(q, j, Down(q.data[j]));
    status, compare := TestDigit(tmp, tmp1, tmp2, q.data[j], y1, yt, x0, x1, x2);
  }

  /** A guess that is exact or one too large gives the digit and the remainder after one correction. */
  lemma OneCorrection(x: int, w: int, g: int)
    requires w > 0 && x >= 0 && x / w <= g && g * w < x + w
    ensures 0 <= x / w
    ensures g * w <= x ==> g == x / w && x - g * w == x % w
    ensures g * w > x ==> g - 1 == x / w && x - g * w + w == x % w
  {
    var d := x / w;
    assert x == d * w + x % w;
    if g * w <= x {
      DivModUnique(x, w, g, x - g * w);
    } else {
      assert (g - 1) * w == g * w - w;
      DivModUnique(x, w, g - 1, x - (g - 1) * w);
    }
  }

  /** A difference leaves no stale limbs where there were none. */
  lemma ZerosKept(a: int, b: int, sign: nat, used: nat, longer: nat, before: seq<uint32>, z: KcBignum, m: nat)
    requires SubtractFrame(a, b, sign, used, longer, before, z) && used <= longer && m <= MAX_BN_ELEMENTS
    requires a != b && ZeroFrom(before, used, m)
    ensures ZeroFrom(z.limbs, z.used, m)
  {
  }

  ghost predicate DigitWritten(before: seq<uint32>, after: seq<uint32>, j: nat, d: int) {
    j < |before| && 0 <= d < BASE && after == before[j := d]
  }

  /** The divisor shifted to the digit, and its multiple by the guess. */
  method MultipleOfDivisor(tmp: KcBignum, tmp1: KcBignum, tmp2: KcBignum, y: KcBignum, j: nat, ghost g: int,
                           ghost w: int) returns (status: Status)
    requires y.Valid() && y.Trimmed() && y.sign == 0 && tmp.Valid() && tmp1.Valid() && tmp2.Valid()
    requires Separate(tmp, tmp1) && Separate(tmp, tmp2) && Separate(tmp1, tmp2)
    requires Separate(y, tmp) && Separate(y, tmp1)
    requires 0 < y.used && y.used + j < MAX_BN_ELEMENTS && w == ShlLimbs(y.Abs(), j) && Holding(tmp2, g)
    modifies tmp, tmp.data, tmp1, tmp1.data
    ensures status == Ok && tmp.Valid() && tmp.Trimmed() && tmp.sign == 0 && tmp.Abs() == w
    ensures tmp1.Valid() && tmp1.Trimmed() && tmp1.sign == 0 && tmp1.Abs() == g * w
  {
    status := ShiftDigL(tmp, y, j);
    if status != Ok {
      return;
    }
    status := Multiply(tmp1, tmp, tmp2, 0);
    Commute(g, w);
  }

  /** Steps 3.3 and 3.4: subtracts the guessed multiple of the shifted divisor, and corrects both the remainder
      and the digit if that went below zero. */
  method SubtractMultiple(x: KcBignum, y: KcBignum, q: KcBignum, j: nat, tmp: KcBignum, tmp1: KcBignum,
                          tmp2: KcBignum, ghost g: int, ghost w: int, ghost m: nat) returns (status: Status)
    requires x.Valid() && x.Trimmed() && x.sign == 0 && y.Valid() && y.Trimmed() && y.sign == 0
    requires q.Synced() && tmp.Valid() && tmp1.Valid() && tmp2.Valid()
    requires Separate(tmp, tmp1) && Separate(tmp, tmp2) && Separate(tmp1, tmp2) && Separate(x, q) && Separate(x, y)
    requires Separate(x, tmp) && Separate(x, tmp1) && Separate(x, tmp2)
    requires Separate(y, tmp) && Separate(y, tmp1) && Separate(q, tmp) && Separate(q, tmp1) && Separate(y, q)
    requires 0 < y.used && y.used + j < MAX_BN_ELEMENTS && x.used > 0
    requires w == ShlLimbs(y.Abs(), j) && w > 0
    requires Holding(tmp2, g) && q.limbs[j] == g < BASE
    requires x.Abs() / w <= g && g * w < x.Abs() + w
    requires m <= MAX_BN_ELEMENTS && ZeroFrom(x.limbs, x.used, m)
    modifies x, x.data, q`limbs, q.data, tmp, tmp.data, tmp1, tmp1.data
    ensures status == Ok
    ensures x.Valid() && x.Trimmed() && x.sign == 0 && q.Synced() && tmp.Valid() && tmp1.Valid()
    ensures x.Abs() == old(x.Abs()) % w
    ensures DigitWritten(old(q.limbs), q.limbs, j, old(x.Abs()) / w)
    ensures x.used > 0 ==> ZeroFrom(x.limbs, x.used, m)
  {
    ghost var X := x.Abs();
    OneCorrection(X, w, g);
    status := MultipleOfDivisor(tmp, tmp1, tmp2, y, j, g, w);
    if status != Ok {
      return;
    }
    status := SubtractKeepingZeros(x, tmp1, m);
    if status != Ok {
      return;
    }
    if x.sign == 1 {
      status := TakeBack(x, tmp, q, j, g, m);
    }
  }

  /** Step 3.4: adds the divisor back, and lowers the digit by one. */
  method TakeBack(x: KcBignum, shifted: KcBignum, q: KcBignum, j: nat, ghost g: int, ghost m: nat)
    returns (status: Status)
    requires x.Valid() && x.Trimmed() && x.sign == 1 && x.used > 0
    requires shifted.Valid() && shifted.Trimmed() && shifted.sign == 0 && q.Synced() && j < MAX_BN_ELEMENTS
    requires Separate(x, shifted) && Separate(x, q) && Separate(q, shifted)
    requires x.Abs() < shifted.Abs() && m <= MAX_BN_ELEMENTS && ZeroFrom(x.limbs, x.used, m)
    requires q.limbs[j] == g && 0 < g < BASE
    modifies x, x.data, q`limbs, q.data
    ensures status == Ok && x.Valid() && x.Trimmed() && x.sign == 0 && q.Synced()
    ensures x.Abs() == shifted.Abs() - old(x.Abs())
    ensures x.used > 0 ==> ZeroFrom(x.limbs, x.used, m)
    ensures q.limbs == old(q.limbs)[j := g - 1]
  {
    status := AddKeepingZeros(x, shifted, m);
    if status != Ok {
      return;
    }
    DownOne(g);
    Put(q, j, Down(q.data[j]));
  }

  /** x = x - y, with what happens to the limbs above. */
  method SubtractKeepingZeros(x: KcBignum, y: KcBignum, ghost m: nat) returns (status: Status)
    requires x.Valid() && x.Trimmed() && x.sign == 0 && y.Valid() && y.Trimmed() && y.sign == 0 && Separate(x, y)
    requires x.used > 0 && m <= MAX_BN_ELEMENTS && ZeroFrom(x.limbs, x.used, m)
    modifies x, x.data
    ensures status == Ok && x.Valid() && x.Trimmed()
    ensures x.Value() == old(x.Abs()) - y.Abs()
    ensures x.sign == if old(x.Abs()) < y.Abs() then 1 else 0
    ensures x.used > 0 ==> ZeroFrom(x.limbs, x.used, m)
  {
    ghost var a, b, X, n, l := x.Abs(), y.Abs(), x.limbs, x.used, Longer(x, y);
    status := Subtract(x, x, y);
    if a != b {
      ZerosKept(a, b, 0, n, l, X, x, m);
    }
  }

  /** x = x + y for negative x and larger positive y, likewise. */
  method AddKeepingZeros(x: KcBignum, y: KcBignum, ghost m: nat) returns (status: Status)
    requires x.Valid() && x.Trimmed() && x.sign == 1 && y.Valid() && y.Trimmed() && y.sign == 0 && Separate(x, y)
    requires x.Abs() < y.Abs() && m <= MAX_BN_ELEMENTS && (x.used > 0 ==> ZeroFrom(x.limbs, x.used, m))
    requires x.used > 0
    modifies x, x.data
    ensures status == Ok && x.Valid() && x.Trimmed() && x.sign == 0
    ensures x.Abs() == y.Abs() - old(x.Abs())
    ensures x.used > 0 ==> ZeroFrom(x.limbs, x.used, m)
  {
    status := Add(x, x, y);
  }

  /** The leading loop: subtracts the divisor, shifted to the top, as often as it goes: at most three times. */
  method SubtractTop(x: KcBignum, shifted: KcBignum, q: KcBignum, top: nat, ghost m: nat) returns (ghost count: int)
    requires x.Valid() && x.Trimmed() && x.sign == 0 && q.Synced() && top < MAX_BN_ELEMENTS
    requires shifted.Valid() && shifted.Trimmed() && shifted.sign == 0
    requires Separate(x, shifted) && Separate(x, q) && Separate(q, shifted)
    requires shifted.used > 0 && shifted.Abs() > 0 && x.Abs() < 4 * shifted.Abs()
    requires m <= MAX_BN_ELEMENTS && (x.used > 0 ==> ZeroFrom(x.limbs, x.used, m))
    modifies x, x.data, q`limbs, q.data
    ensures x.Valid() && x.Trimmed() && x.sign == 0 && q.Synced()
    ensures 0 <= count <= 3
    ensures old(x.Abs()) == count * shifted.Abs() + x.Abs() && x.Abs() < shifted.Abs()
    ensures q.limbs == old(q.limbs)[top := Wrap32(old(q.limbs[top]) as int + count)]
    ensures x.used > 0 ==> ZeroFrom(x.limbs, x.used, m)
  {
    ghost var X, w, Q := x.Abs(), shifted.Abs(), q.limbs;
    count := 0;
    var compare := Compare(x, shifted);
    while compare != BN_SMALLER
      invariant x.Valid() && x.Trimmed() && x.sign == 0 && q.Synced()
      invariant 0 <= count <= 3 && X == count * w + x.Abs()
      invariant compare == Order(x.Abs(), w)
      invariant q.limbs == Q[top := Wrap32(Q[top] as int + count)]
      invariant x.used > 0 ==> ZeroFrom(x.limbs, x.used, m)
      decreases x.Abs()
    {
      CountOne(X, w, count, x.Abs());
      WrapOne(Q[top] as int + count);
      compare := SubtractOnce(x, shifted, q, top, m);
      count := count + 1;
    }
  }

  lemma CountOne(a: int, w: int, count: int, x: int)
    requires w > 0 && a == count * w + x && a < 4 * w && x >= w
    ensures count + 1 <= 3 && a == (count + 1) * w + (x - w)
  {
    DistributeSum(count, 1, w);
    if count >= 3 {
      MulLe(3, count, w);
    }
  }

  lemma WrapOne(v: int)
    ensures Wrap32(Wrap32(v) as int + 1) == Wrap32(v + 1)
  {
  }

  method SubtractOnce(x: KcBignum, shifted: KcBignum, q: KcBignum, top: nat, ghost m: nat) returns (compare: uint32)
    requires x.Valid() && x.Trimmed() && x.sign == 0 && q.Synced() && top < MAX_BN_ELEMENTS
    requires shifted.Valid() && shifted.Trimmed() && shifted.sign == 0 && shifted.used > 0
    requires Separate(x, shifted) && Separate(x, q) && Separate(q, shifted)
    requires x.Abs() >= shifted.Abs() > 0
    requires m <= MAX_BN_ELEMENTS && (x.used > 0 ==> ZeroFrom(x.limbs, x.used, m))
    modifies x, x.data, q`limbs, q.data
    ensures x.Valid() && x.Trimmed() && x.sign == 0 && q.Synced()
    ensures x.Abs() == old(x.Abs()) - shifted.Abs()
    ensures compare == Order(x.Abs(), shifted.Abs())
    ensures q.limbs == old(q.limbs)[top := Wrap32(old(q.limbs[top]) as int + 1)]
    ensures x.used > 0 ==> ZeroFrom(x.limbs, x.used, m)
  {
    Put(q, top, Wrap32(q.data[top] as int + 1));
    var status := SubtractKeepingZeros(x, shifted, m);
    compare := Compare(x, shifted);
  }

  /** How far a long division has come: the digits from position `k` on are final, the rest are zero. */
  ghost predicate Progress(a: int, y: int, qs: seq<uint32>, x: int, k: nat) {
    && k <= |qs| && y > 0
    && Proper(qs, |qs|) && ZeroFrom(qs, 0, k)
    && a == y * Val(qs, |qs|) + x && 0 <= x < ShlLimbs(y, k)
  }

  /** One more digit. */
  lemma ProgressStep(a: int, y: int, qs: seq<uint32>, x: int, k: nat, w: int, d: uint32, rest: int)
    requires Progress(a, y, qs, x, k) && k > 0 && w == ShlLimbs(y, k - 1) && w > 0
    requires d == x / w && rest == x % w && d < BASE
    ensures Progress(a, y, qs[k - 1 := d], rest, k - 1)
  {
    var qs' := qs[k - 1 := d];
    DigitSet(qs, qs', k - 1, |qs|);
    ShlLimbsIsProduct(y, k - 1);
    assert x == d * w + rest;
    MultiplyOut(y, Val(qs, |qs|), d, Pow(k - 1), w);
  }

  lemma MultiplyOut(y: int, v: int, d: int, p: int, w: int)
    requires w == y * p
    ensures y * (v + d * p) == y * v + d * w
  {
  }

  lemma {:induction false} DigitSet(s: seq<uint32>, t: seq<uint32>, j: nat, n: nat)
    requires j < |s| == |t| && n <= |s| && s[j] == 0
    requires forall k :: 0 <= k < |s| && k != j ==> t[k] == s[k]
    ensures Val(t, n) == if j < n then Val(s, n) + t[j] * Pow(j) else Val(s, n)
  {
    if n > 0 {
      DigitSet(s, t, j, n - 1);
    }
  }

  /** A normalised divisor: canonical, positive, with 27 bits in its top limb. */
  ghost predicate Normalised(y: KcBignum, t: nat)
    reads y, y.data
  {
    && y.Valid() && y.sign == 0 && y.used == t + 1 && HALF_TOP <= y.limbs[t] < 2 * HALF_TOP
  }

  lemma NormalisedBounds(ys: seq<uint32>, t: nat, j: nat)
    requires t < |ys| && Proper(ys, t + 1) && ys[t] >= HALF_TOP
    ensures HALF_TOP * Pow(t + j) <= ShlLimbs(Val(ys, t + 1), j) < Pow(t + 1 + j)
  {
    var y := Val(ys, t + 1);
    ShlLimbsIsProduct(y, j);
    ValBound(ys, t + 1);
    ValLower(ys, t, t + 1);
    MulLe(HALF_TOP, ys[t], Pow(t));
    PowAdd(t, j);
    PowAdd(t + 1, j);
    MulLe(HALF_TOP * Pow(t), y, Pow(j));
    MulLe(y + 1, Pow(t + 1), Pow(j));
    MulAssoc(HALF_TOP, Pow(t), Pow(j));
    DistributeSum(y, 1, Pow(j));
  }

  /** The remainder has no limbs above position `i`, and the digit there can be found from its top limbs. */
  lemma AtPosition(a: int, xs: seq<uint32>, used: nat, i: nat, ys: seq<uint32>, t: nat, qs: seq<uint32>)
    requires used <= |xs| && t < |ys| && t < i < |xs| && Proper(xs, used) && Proper(ys, t + 1)
    requires used > 0 ==> xs[used - 1] != 0
    requires used > 0 ==> ZeroFrom(xs, used, i + 1)
    requires ys[t] >= HALF_TOP
    requires Progress(a, Val(ys, t + 1), qs, Val(xs, used), i - t)
    ensures used <= i + 1
    ensures ShlLimbs(Val(ys, t + 1), i - t - 1) > 0
    ensures i <= used ==> Val(xs, i + 1) == Val(xs, used)
    ensures i <= used ==> Position(xs, i, ys, t, ShlLimbs(Val(ys, t + 1), i - t - 1))
    ensures i > used ==> Val(xs, used) < ShlLimbs(Val(ys, t + 1), i - t - 1)
  {
    var y := Val(ys, t + 1);
    NormalisedBounds(ys, t, i - t);
    NormalisedBounds(ys, t, i - t - 1);
    assert t + (i - t - 1) == i - 1;
    assert t + 1 + (i - t) == i + 1;
    if used > i + 1 {
      PowMono(i + 1, used - 1);
      ValLower(xs, used - 1, used);
      MulLe(1, xs[used - 1], Pow(used - 1));
    }
    if i <= used {
      ValZeroTail(xs, used, i + 1);
      ShlLimbsIsProduct(y, i - t - 1);
    } else {
      ValBound(xs, used);
      PowMono(used, i - 1);
    }
  }

  ghost predicate AllSeparate(x: KcBignum, y: KcBignum, q: KcBignum, tmp: KcBignum, tmp1: KcBignum, tmp2: KcBignum) {
    && Separate(x, y) && Separate(x, q) && Separate(x, tmp) && Separate(x, tmp1) && Separate(x, tmp2)
    && Separate(y, q) && Separate(y, tmp) && Separate(y, tmp1) && Separate(y, tmp2)
    && Separate(q, tmp) && Separate(q, tmp1) && Separate(q, tmp2)
    && Separate(tmp, tmp1) && Separate(tmp, tmp2) && Separate(tmp1, tmp2)
  }

  /** The `n` low limbs of the quotient are the digits found so far. */
  ghost predicate Agrees(q: seq<uint32>, qs: seq<uint32>, n: nat) {
    n <= |q| && n <= |qs| && forall k :: 0 <= k < n ==> q[k] == qs[k]
  }

  /** The guess for digit i-t-1, from the top limbs of the remainder and the divisor. */
  method GuessFromTop(x: KcBignum, y: KcBignum, q: KcBignum, tmp: KcBignum, tmp1: KcBignum, tmp2: KcBignum,
                      i: nat, t: nat, ghost w: int) returns (status: Status)
    requires AllSeparate(x, y, q, tmp, tmp1, tmp2)
    requires x.Synced() && y.Synced() && q.Synced() && tmp.Valid() && tmp1.Valid() && tmp2.Valid()
    requires t < i < MAX_BN_ELEMENTS && Position(x.limbs, i, y.limbs, t, w)
    modifies q`limbs, q.data, tmp, tmp.data, tmp1, tmp1.data, tmp2, tmp2.data
    ensures status == Ok
    ensures q.Synced() && tmp.Valid() && tmp1.Valid() && tmp2.Valid()
    ensures Holding(tmp2, tmp2.Abs()) && tmp2.Abs() < BASE && q.limbs == old(q.limbs)[i - t - 1 := tmp2.Abs()]
    ensures Val(x.limbs, i + 1) / w <= tmp2.Abs() && tmp2.Abs() * w < Val(x.limbs, i + 1) + w
  {
    var x0: uint32 := if i > 1 then x.data[i - 2] else 0;
    var y1: uint32 := if t > 0 then y.data[t - 1] else 0;
    status := EstimateDigit(q, i - t - 1, tmp, tmp1, tmp2, y1, y.data[t], x0, x.data[i - 1], x.data[i],
                            x.limbs, i, y.limbs, t, w);
  }

  /** One round of the main loop: digit i-t-1. */
  method DivideStep(x: KcBignum, y: KcBignum, q: KcBignum, tmp: KcBignum, tmp1: KcBignum, tmp2: KcBignum,
                    i: nat, t: nat, ghost m: nat, ghost n: nat, ghost a: int, ghost qs: seq<uint32>)
    returns (status: Status, ghost qs': seq<uint32>)
    requires AllSeparate(x, y, q, tmp, tmp1, tmp2)
    requires x.Valid() && x.Trimmed() && x.sign == 0 && q.Synced() && tmp.Valid() && tmp1.Valid() && tmp2.Valid()
    requires Normalised(y, t) && t < i < m <= MAX_BN_ELEMENTS
    requires x.used > 0 ==> ZeroFrom(x.limbs, x.used, m)
    requires Progress(a, y.Abs(), qs, x.Abs(), i - t) && Agrees(q.limbs, qs, n)
    modifies x, x.data, q`limbs, q.data, tmp, tmp.data, tmp1, tmp1.data, tmp2, tmp2.data
    ensures status == Ok
    ensures x.Valid() && x.Trimmed() && x.sign == 0 && q.Synced() && tmp.Valid() && tmp1.Valid() && tmp2.Valid()
    ensures x.used > 0 ==> ZeroFrom(x.limbs, x.used, m)
    ensures |qs'| == |qs| && Progress(a, y.Abs(), qs', x.Abs(), i - t - 1) && Agrees(q.limbs, qs', n)
  {
    ghost var X, Y := x.Abs(), y.Abs();
    ghost var w := ShlLimbs(Y, i - t - 1);
    AtPosition(a, x.limbs, x.used, i, y.limbs, t, qs);
    if i > x.used {
      qs' := qs;
      return Ok, qs';
    }
    status := GuessFromTop(x, y, q, tmp, tmp1, tmp2, i, t, w);
    if status != Ok {
      return;
    }
    status := SubtractMultiple(x, y, q, i - t - 1, tmp, tmp1, tmp2, tmp2.Abs(), w, m);
    qs' := qs[i - t - 1 := X / w];
    ProgressStep(a, Y, qs, X, i - t, w, X / w, x.Abs());
  }
}
