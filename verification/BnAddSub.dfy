/** Signed addition and subtraction of big numbers, in place. */
module BnAddSub {
  import opened Word
  import opened Limbs
  import opened BigNum

  /** One digit of a subtraction: the borrow moves one place up. */
  lemma SubDigit(before: seq<uint32>, after: seq<uint32>, i: nat, diff: int, a: int, b: int, borrow: int, next: int)
    requires i < |before| == |after|
    requires forall j :: 0 <= j < i ==> after[j] == before[j]
    requires after[i] == a + next * BASE - (b + borrow)
    requires Val(before, i) - borrow * Pow(i) == diff
    ensures Val(after, i + 1) - next * Pow(i + 1) == diff + (a - b) * Pow(i)
  {
    ValCong(before, after, i);
    var p := Pow(i);
    assert Pow(i + 1) == BASE * p;
    assert after[i] * p == (a - b) * p + next * (BASE * p) - borrow * p;
  }

  /** One digit of an addition: the carry moves one place up. */
  lemma AddDigit(before: seq<uint32>, after: seq<uint32>, i: nat, sum: int, a: int, carry: int, next: int)
    requires i < |before| == |after|
    requires forall j :: 0 <= j < i ==> after[j] == before[j]
    requires after[i] + next * BASE == a + carry
    requires Val(before, i) + carry * Pow(i) == sum
    ensures Val(after, i + 1) + next * Pow(i + 1) == sum + a * Pow(i)
  {
    ValCong(before, after, i);
    var p := Pow(i);
    assert Pow(i + 1) == BASE * p;
    assert after[i] * p + next * (BASE * p) == a * p + carry * p;
  }

  lemma Distribute(a: int, b: int, p: int)
    ensures (a - b) * p == a * p - b * p
  {
  }

  /** Writes digit `i` of a difference and hands on the borrow. */
  method SubtractDigit(z: array<uint32>, i: nat, a: uint32, b: uint32, borrow: uint32, ghost diff: int)
    returns (next: uint32)
    requires i < z.Length && a < BASE && b < BASE && borrow <= 1
    requires Val(z[..], i) - borrow * Pow(i) == diff
    modifies z
    ensures next <= 1 && z[i] < BASE
    ensures forall k :: 0 <= k < z.Length && k != i ==> z[k] == old(z[k])
    ensures b == 0 ==> Val(z[..], i + 1) - next * Pow(i + 1) == diff + a * Pow(i)
    ensures Val(z[..], i + 1) - next * Pow(i + 1) == diff + a * Pow(i) - b * Pow(i)
  {
    ghost var before := z[..];
    var temp: uint32 := b + borrow;
    next := if temp > a then 1 else 0;
    z[i] := a + next * BASE - temp;
    SubDigit(before, z[..], i, diff, a, b, borrow, next);
    Distribute(a, b, Pow(i));
  }

  /** The subtraction loop over the limbs that both operands have. */
  method SubtractCommon(z: array<uint32>, x: array<uint32>, y: array<uint32>, n: nat) returns (borrow: uint32)
    requires n <= z.Length == x.Length == y.Length
    requires Proper(x[..], n) && Proper(y[..], n)
    modifies z
    ensures borrow <= 1
    ensures Proper(z[..], n)
    ensures forall k :: n <= k < z.Length ==> z[k] == old(z[k])
    ensures Val(z[..], n) - borrow * Pow(n) == old(Val(x[..], n) - Val(y[..], n))
  {
    ghost var X, Y := x[..], y[..];
    borrow := 0;
    var i := 0;
    while i < n
      invariant i <= n && borrow <= 1
      invariant forall k :: i <= k < x.Length ==> x[k] == X[k]
      invariant forall k :: i <= k < y.Length ==> y[k] == Y[k]
      invariant forall k :: i <= k < z.Length ==> z[k] == old(z[k])
      invariant forall k :: 0 <= k < i ==> z[k] < BASE
      invariant Val(z[..], i) - borrow * Pow(i) == Val(X, i) - Val(Y, i)
    {
      borrow := SubtractDigit(z, i, x[i], y[i], borrow, Val(X, i) - Val(Y, i));
      i := i + 1;
    }
  }

  /** The loop that extends the borrow across the longer operand, whose original limbs are `X`;
      `taken` is the value subtracted from it. */
  method SubtractRest(z: array<uint32>, x: array<uint32>, from: nat, n: nat, carried: uint32,
                      ghost X: seq<uint32>, ghost taken: int)
    requires from <= n <= z.Length == x.Length == |X| && carried <= 1
    requires Proper(X, n) && Proper(z[..], from)
    requires forall k :: from <= k < x.Length ==> x[k] == X[k]
    requires Val(z[..], from) - carried * Pow(from) == Val(X, from) - taken
    requires taken <= Val(X, n)
    modifies z
    ensures Proper(z[..], n)
    ensures forall k :: n <= k < z.Length ==> z[k] == old(z[k])
    ensures Val(z[..], n) == Val(X, n) - taken
  {
    var borrow: uint32 := carried;
    var i := from;
    while i < n
      invariant from <= i <= n && borrow <= 1
      invariant forall k :: i <= k < x.Length ==> x[k] == X[k]
      invariant forall k :: i <= k < z.Length ==> z[k] == old(z[k])
      invariant forall k :: 0 <= k < i ==> z[k] < BASE
      invariant Val(z[..], i) - borrow * Pow(i) == Val(X, i) - taken
    {
      borrow := SubtractDigit(z, i, x[i], 0, borrow, Val(X, i) - taken);
      i := i + 1;
    }
    NoFinalBorrow(z[..], n, borrow, Val(X, n) - taken);
  }

  /** Subtracting proper digits of a smaller number leaves no borrow. */
  lemma NoFinalBorrow(s: seq<uint32>, n: nat, borrow: int, diff: int)
    requires n <= |s| && Proper(s, n) && 0 <= borrow <= 1 && diff >= 0
    requires Val(s, n) - borrow * Pow(n) == diff
    ensures borrow == 0 && Val(s, n) == diff
  {
    ValBound(s, n);
  }

  /** z = |x| - |y| for |x| > |y|; `z` may be either operand. */
  method SubtractSmaller(z: KcBignum, x: KcBignum, y: KcBignum)
    requires z.Valid() && x.Valid() && y.Valid()
    requires Apart(z, x) && Apart(z, y)
    requires x.Abs() > y.Abs() && x.used >= y.used
    modifies z`used, z`limbs, z.data
    ensures z.Valid() && z.Trimmed()
    ensures z.Abs() == old(x.Abs() - y.Abs())
    ensures z.used <= old(x.used) && ZeroFrom(z.limbs, z.used, old(x.used))
    ensures forall k :: old(x.used) <= k < MAX_BN_ELEMENTS ==> z.limbs[k] == old(z.limbs)[k]
  {
    var xUsed, yUsed := x.used, y.used;
    ghost var X, Y := x.limbs, y.limbs;
    var borrow := SubtractCommon(z.data, x.data, y.data, yUsed);
    SubtractRest(z.data, x.data, yUsed, xUsed, borrow, X, Val(Y, yUsed));
    z.limbs := z.data[..];
    z.used := xUsed;
    Trim(z);
  }

  /** Difference of magnitudes, with the sign of `x` when `x` is the larger one and the opposite sign
      otherwise. Equal non-zero operands leave the old limbs of `z` in place as stale data. */
  method SubtractAbs(z: KcBignum, x: KcBignum, y: KcBignum) returns (status: Status)
    requires z.Valid() && x.Valid() && y.Valid() && x.Trimmed() && y.Trimmed()
    requires Apart(z, x) && Apart(z, y)
    modifies z, z.data
    ensures status == Ok
    ensures z.Valid() && z.Trimmed()
    ensures z.Value() == old(Signed(x.sign, x.Abs() - y.Abs()))
    ensures SubtractFrame(old(x.Abs()), old(y.Abs()), old(x.sign), old(x.used), old(Longer(x, y)), old(z.limbs), z)
  {
    CanonicalLength(x.limbs, x.used, y.limbs, y.used);
    var compare := Compare(x, y);
    if compare == BN_SMALLER {
      z.sign := 1 - x.sign;
      SubtractSmaller(z, y, x);
    } else if compare == BN_BIGGER {
      z.sign := x.sign;
      if x.used == 0 {
        z.used := 0;
      } else {
        SubtractSmaller(z, x, y);
      }
    } else {
      Zero(z);
    }
    return Ok;
  }

  ghost function Longer(x: KcBignum, y: KcBignum): nat
    reads x, y
  {
    if x.used > y.used then x.used else y.used
  }

  /** Canonical numerals are ordered by length first. */
  lemma CanonicalLength(s: seq<uint32>, m: nat, t: seq<uint32>, n: nat)
    requires m <= |s| && n <= |t| && Proper(s, m) && Proper(t, n)
    requires (m > 0 ==> s[m - 1] != 0) && (n > 0 ==> t[n - 1] != 0)
    ensures m < n ==> Val(s, m) < Val(t, n)
    ensures m > n ==> Val(s, m) > Val(t, n)
  {
    if m < n {
      LongerIsBigger(s, m, t, n);
    } else if m > n {
      LongerIsBigger(t, n, s, m);
    }
  }

  /** Writes digit `i` of a sum and hands on the carry. */
  method AddOneDigit(z: array<uint32>, i: nat, a: uint32, b: uint32, carry: uint32, ghost sum: int)
    returns (next: uint32)
    requires i < z.Length && a < BASE && b < BASE && carry <= 1
    requires Val(z[..], i) + carry * Pow(i) == sum
    modifies z
    ensures next <= 1 && z[i] < BASE
    ensures forall k :: 0 <= k < z.Length && k != i ==> z[k] == old(z[k])
    ensures b == 0 ==> Val(z[..], i + 1) + next * Pow(i + 1) == sum + a * Pow(i)
    ensures Val(z[..], i + 1) + next * Pow(i + 1) == sum + a * Pow(i) + b * Pow(i)
  {
    ghost var before := z[..];
    var total: uint32 := a + b + carry;
    z[i] := total % BASE;
    next := total / BASE;
    AddDigit(before, z[..], i, sum, a + b, carry, next);
    DistributeSum(a, b, Pow(i));
  }

  /** The addition loop over the limbs that both operands have. */
  method AddCommon(z: array<uint32>, x: array<uint32>, y: array<uint32>, n: nat) returns (carry: uint32)
    requires n <= z.Length == x.Length == y.Length
    requires Proper(x[..], n) && Proper(y[..], n)
    modifies z
    ensures carry <= 1
    ensures Proper(z[..], n)
    ensures forall k :: n <= k < z.Length ==> z[k] == old(z[k])
    ensures Val(z[..], n) + carry * Pow(n) == old(Val(x[..], n) + Val(y[..], n))
  {
    ghost var X, Y := x[..], y[..];
    carry := 0;
    var i := 0;
    while i < n
      invariant i <= n && carry <= 1
      invariant forall k :: i <= k < x.Length ==> x[k] == X[k]
      invariant forall k :: i <= k < y.Length ==> y[k] == Y[k]
      invariant forall k :: i <= k < z.Length ==> z[k] == old(z[k])
      invariant forall k :: 0 <= k < i ==> z[k] < BASE
      invariant Val(z[..], i) + carry * Pow(i) == Val(X, i) + Val(Y, i)
    {
      carry := AddOneDigit(z, i, x[i], y[i], carry, Val(X, i) + Val(Y, i));
      i := i + 1;
    }
  }

  /** The loop that extends the carry across the longer operand, whose original limbs are `X`, and
      stores the final carry; `added` is the value added to that operand. */
  method AddRest(z: array<uint32>, x: array<uint32>, from: nat, n: nat, carried: uint32,
                 ghost X: seq<uint32>, ghost added: int)
    requires from <= n < z.Length == x.Length == |X| && carried <= 1
    requires Proper(X, n) && Proper(z[..], from)
    requires forall k :: from <= k < x.Length ==> x[k] == X[k]
    requires Val(z[..], from) + carried * Pow(from) == Val(X, from) + added
    modifies z
    ensures Proper(z[..], n + 1)
    ensures forall k :: n < k < z.Length ==> z[k] == old(z[k])
    ensures Val(z[..], n + 1) == Val(X, n) + added
  {
    var carry: uint32 := carried;
    var i := from;
    while i < n
      invariant from <= i <= n && carry <= 1
      invariant forall k :: i <= k < x.Length ==> x[k] == X[k]
      invariant forall k :: i <= k < z.Length ==> z[k] == old(z[k])
      invariant forall k :: 0 <= k < i ==> z[k] < BASE
      invariant Val(z[..], i) + carry * Pow(i) == Val(X, i) + added
    {
      carry := AddOneDigit(z, i, x[i], 0, carry, Val(X, i) + added);
      i := i + 1;
    }
    ghost var before := z[..];
    z[i] := carry;
    ValCong(before, z[..], i);
  }

  /** The digits of the sum, with one more for the carry. */
  method AddDigits(z: array<uint32>, x: array<uint32>, y: array<uint32>, n: nat, m: nat)
    requires m <= n < z.Length == x.Length == y.Length
    requires Proper(x[..], n) && Proper(y[..], m)
    modifies z
    ensures Proper(z[..], n + 1)
    ensures forall k :: n < k < z.Length ==> z[k] == old(z[k])
    ensures Val(z[..], n + 1) == old(Val(x[..], n) + Val(y[..], m))
  {
    ghost var X, added := x[..], Val(y[..], m);
    var carry := AddCommon(z, x, y, m);
    ValPrefix(X, m, n);
    AddRest(z, x, m, n, carry, X, added);
  }

  /** z = |max| + |min|, where `max` is at least as long. */
  method AddLonger(z: KcBignum, max: KcBignum, min: KcBignum)
    requires z.Valid() && max.Valid() && min.Valid()
    requires Apart(z, max) && Apart(z, min)
    requires min.used <= max.used < MAX_BN_ELEMENTS
    modifies z`used, z`limbs, z.data
    ensures z.Valid() && z.Trimmed()
    ensures z.Abs() == old(max.Abs() + min.Abs())
    ensures z.used <= old(max.used) + 1 && ZeroFrom(z.limbs, z.used, old(max.used) + 1)
    ensures forall k :: old(max.used) < k < MAX_BN_ELEMENTS ==> z.limbs[k] == old(z.limbs)[k]
  {
    var maxUsed, minUsed := max.used, min.used;
    AddDigits(z.data, max.data, min.data, maxUsed, minUsed);
    z.limbs := z.data[..];
    z.used := maxUsed + 1;
    Trim(z);
  }

  /** Sum of magnitudes with the sign of `x`; `z` may be either operand. */
  method AddAbs(z: KcBignum, x: KcBignum, y: KcBignum) returns (status: Status)
    requires z.Valid() && x.Valid() && y.Valid()
    requires Apart(z, x) && Apart(z, y)
    modifies z, z.data
    ensures z.Valid()
    ensures status == if old(Longer(x, y)) < 80 then Ok else BufferOverflow
    ensures status == Ok ==>
              && z.Trimmed() && z.Abs() == old(x.Abs() + y.Abs())
              && AddFrame(old(x.sign), old(Longer(x, y)), old(z.limbs), z)
    ensures status != Ok ==> z.used == old(z.used) && z.sign == old(z.sign) && z.limbs == old(z.limbs)
  {
    var max, min := x, y;
    if x.used <= y.used {
      max, min := y, x;
    }
    if max.used + 1 > MAX_BN_ELEMENTS {
      return BufferOverflow;
    }
    var sign := x.sign;
    AddLonger(z, max, min);
    z.sign := sign;
    return Ok;
  }

  /** z = x - y; exact on canonical operands unless the sum of magnitudes needs an 81st limb. */
  method Subtract(z: KcBignum, x: KcBignum, y: KcBignum) returns (status: Status)
    requires z.Valid() && x.Valid() && y.Valid() && x.Trimmed() && y.Trimmed()
    requires Apart(z, x) && Apart(z, y)
    modifies z, z.data
    ensures z.Valid()
    ensures status == Ok <==> (old(x.sign == y.sign) || old(Longer(x, y)) < 80)
    ensures status != Ok ==> status == BufferOverflow
    ensures status == Ok ==> z.Trimmed() && z.Value() == old(x.Value() - y.Value())
    ensures old(x.sign == y.sign) ==> SubtractFrame(old(x.Abs()), old(y.Abs()), old(x.sign), old(x.used),
              old(Longer(x, y)), old(z.limbs), z)
    ensures old(x.sign != y.sign) && status == Ok ==> AddFrame(old(x.sign), old(Longer(x, y)), old(z.limbs), z)
  {
    if x.sign != y.sign {
      status := AddAbs(z, x, y);
    } else {
      status := SubtractAbs(z, x, y);
    }
  }

  /** What a subtraction of magnitudes does to the sign and to the limbs it does not compute. */
  ghost predicate SubtractFrame(a: int, b: int, sign: nat, used: nat, longer: nat, before: seq<uint32>, z: KcBignum)
    reads z, z.data
  {
    && z.Valid() && |before| == MAX_BN_ELEMENTS && longer <= MAX_BN_ELEMENTS
    && (a != b ==>
          && z.sign == (if a > b then sign else 1 - sign)
          && z.used <= longer && ZeroFrom(z.limbs, z.used, longer)
          && forall k :: longer <= k < MAX_BN_ELEMENTS ==> z.limbs[k] == before[k])
    && (a == b ==> z.used == 0 && z.limbs == before && z.sign == (if used > 0 then 0 else sign))
  }

  ghost predicate AddFrame(sign: nat, longer: nat, before: seq<uint32>, z: KcBignum)
    reads z, z.data
  {
    && z.Valid() && |before| == MAX_BN_ELEMENTS && longer < MAX_BN_ELEMENTS
    && z.sign == sign
    && z.used <= longer + 1 && ZeroFrom(z.limbs, z.used, longer + 1)
    && forall k :: longer < k < MAX_BN_ELEMENTS ==> z.limbs[k] == before[k]
  }

  /** z = x + y, under the same condition. */
  method Add(z: KcBignum, x: KcBignum, y: KcBignum) returns (status: Status)
    requires z.Valid() && x.Valid() && y.Valid() && x.Trimmed() && y.Trimmed()
    requires Apart(z, x) && Apart(z, y)
    modifies z, z.data
    ensures z.Valid()
    ensures status == Ok <==> (old(x.sign != y.sign) || old(Longer(x, y)) < 80)
    ensures status != Ok ==> status == BufferOverflow
    ensures status == Ok ==> z.Trimmed() && z.Value() == old(x.Value() + y.Value())
    ensures old(x.sign == 0 && y.sign == 1) ==> SubtractFrame(old(x.Abs()), old(y.Abs()), 0, old(x.used),
              old(Longer(x, y)), old(z.limbs), z)
    ensures old(x.sign == 1 && y.sign == 0) ==> SubtractFrame(old(y.Abs()), old(x.Abs()), 0, old(y.used),
              old(Longer(x, y)), old(z.limbs), z)
    ensures old(x.sign == y.sign) && status == Ok ==> AddFrame(old(x.sign), old(Longer(x, y)), old(z.limbs), z)
  {
    if x.sign != y.sign {
      if y.sign == 1 {
        status := SubtractAbs(z, x, y);
      } else {
        status := SubtractAbs(z, y, x);
      }
    } else {
      status := AddAbs(z, x, y);
    }
  }
}
