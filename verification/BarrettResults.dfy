/** What the outcome of Barrett reduction means for the buffers that callers use, and where it goes wrong. */
module BarrettResults {
  import opened Word
  import opened Limbs
  import opened LimbDigits
  import opened Columns
  import opened BnMultiply
  import opened BarrettMath
  import opened BnCorrection
  import opened BnBarrett

  const SIZE: nat := Limbs.MAX_BN_ELEMENTS

  /** The operands of a reduction: a modulus of `k` limbs, and x >= m of at most twice as many. */
  ghost predicate Operands(x: int, m: int, k: nat) {
    && 0 < k && 2 * k < SIZE && 0 < m && Pow(k - 1) <= m < Pow(k) && m <= x < Pow(2 * k)
  }

  /** The reduction of x into a buffer that holds `before` reports success. */
  ghost predicate Succeeds(before: seq<uint32>, x: int, m: int, k: nat)
    requires |before| == SIZE && Operands(x, m, k)
  {
    var v := Rest(x, m, k);
    Reduces(before, v, Written(x, v, k), m, k)
  }

  ghost function Result(before: seq<uint32>, x: int, m: int, k: nat): int
    requires |before| == SIZE && Operands(x, m, k)
  {
    var v := Rest(x, m, k);
    WrittenFits(x, v, k);
    Residue(before, v, Written(x, v, k), m)
  }

  lemma WrittenFits(x: nat, v: int, k: nat)
    requires 0 <= v && 2 * k < SIZE && k > 0
    ensures Written(x, v, k) <= k + 2 <= SIZE
  {
    var y := x % Pow(k + 1);
    DigitsValue(y);
    ShortNumeral(Digits(y), LimbCount(y), k + 1);
  }

  /** A reported success is wrong exactly when the rest is below the modulus, the stale limbs lie below the length of
      the modulus only, and together with the rest they reach the modulus. The result is then negative. */
  lemma WrongExactlyWhen(before: seq<uint32>, x: int, m: int, k: nat)
    requires |before| == SIZE && Operands(x, m, k)
    ensures var v := Rest(x, m, k);
            var w := Written(x, v, k);
            w <= SIZE
            && (Succeeds(before, x, m, k) && Result(before, x, m, k) != x % m <==>
                0 < v < m <= v + Stale(before, w) && ZeroFrom(before, Larger(w, k), SIZE))
    ensures Succeeds(before, x, m, k) ==>
              Result(before, x, m, k) == x % m || (Result(before, x, m, k) == x % m - m && x % m != 0)
  {
    var v := Rest(x, m, k);
    var w := Written(x, v, k);
    WrittenFits(x, v, k);
    RestCongruent(x, m, k);
    ResidueCongruent(before, v, w, m, x);
    if 0 < v < m {
      DivModUnique(v, m, 0, v);
    }
  }

  /** A zeroed buffer: success is always right, and has an exact condition on the numbers alone. */
  lemma ZeroedResult(before: seq<uint32>, x: int, m: int, k: nat)
    requires |before| == SIZE && Operands(x, m, k) && ZeroFrom(before, 0, SIZE)
    ensures Succeeds(before, x, m, k) ==> Result(before, x, m, k) == x % m
    ensures m > Pow(k - 1) ==> (Succeeds(before, x, m, k) <==> x % m != 0 || NothingRounded(x, m, k))
    ensures m == Pow(k - 1) ==>
              (Succeeds(before, x, m, k) <==>
               x % Pow(k + 1) == 0 || (x % m != 0 && x % Pow(k + 1) / m <= 11))
  {
    var v := Rest(x, m, k);
    var w := Written(x, v, k);
    WrittenFits(x, v, k);
    ValZeroTail(before, 0, SIZE);
    ValZeroTail(before, 0, w);
    RestCongruent(x, m, k);
    SmallQuotient(v, m);
    if m == Pow(k - 1) {
      RestOfPower(x, k);
    } else {
      RestIsSmall(x, m, k);
    }
  }

  lemma SmallQuotient(v: int, m: int)
    requires v >= 0 && m > 0
    ensures v < 4 * m ==> v / m <= 3
    ensures v < m ==> v % m == v && v / m == 0
  {
    DivBounds(v, m);
    if v / m >= 4 {
      MulLe(4, v / m, m);
    }
    if v < m {
      DivModUnique(v, m, 0, v);
    }
  }

  /** The buffer of an operand of `used` limbs, clean above them. */
  ghost predicate OperandBuffer(s: seq<uint32>, x: int, used: nat) {
    && |s| == SIZE && used <= SIZE && Proper(s, SIZE) && ZeroFrom(s, used, SIZE) && Val(s, used) == x
    && (used > 0 ==> s[used - 1] != 0)
  }

  /**
   Reduction in place: the buffer is the operand's own. Success is never wrong, and needs a residue that is not zero and
   an operand of at most k + 1 limbs, or of k + 2 limbs when the difference of the residues is negative, so that all of
   them are written.
  */
  lemma InPlace(s: seq<uint32>, x: int, used: nat, m: int, k: nat)
    requires OperandBuffer(s, x, used) && Operands(x, m, k)
    ensures Succeeds(s, x, m, k) ==> Result(s, x, m, k) == x % m
    ensures var v := Rest(x, m, k);
            Succeeds(s, x, m, k) <==>
            x % m != 0 && v / m <= 11
            && (used <= k + 1 || (used == k + 2 && x % Pow(k + 1) < (x - v) % Pow(k + 1)))
  {
    var v := Rest(x, m, k);
    var w := Written(x, v, k);
    WrittenFits(x, v, k);
    RestCongruent(x, m, k);
    SmallQuotient(v, m);
    ValZeroTail(s, used, SIZE);
    if v > 0 {
      InPlaceWritten(s, x, used, v, w, k);
      if ZeroFrom(s, w, SIZE) {
        ValZeroTail(s, w, SIZE);
      } else {
        assert s[used - 1] != 0 && used - 1 >= w && used - 1 >= k;
      }
    } else {
      DivModUnique(0, m, 0, 0);
    }
  }

  /** Which limbs of the operand are written over. */
  lemma InPlaceWritten(s: seq<uint32>, x: nat, used: nat, v: int, w: nat, k: nat)
    requires OperandBuffer(s, x, used) && 0 < v <= x && w == Written(x, v, k) && k > 0 && 2 * k < SIZE
    ensures used <= k + 1 ==> ZeroFrom(s, w, SIZE)
    ensures used > k + 1 && ZeroFrom(s, w, SIZE) ==> used == k + 2 && x % Pow(k + 1) < (x - v) % Pow(k + 1)
    ensures used == k + 2 && x % Pow(k + 1) < (x - v) % Pow(k + 1) ==> ZeroFrom(s, w, SIZE)
    ensures !ZeroFrom(s, w, SIZE) ==> used > k + 1 && used > w
  {
    WrittenFits(x, v, k);
    var p := Pow(k + 1);
    ValBound(s, used);
    DigitsUnique(s, used);
    if used <= k + 1 {
      PowMono(used, k + 1);
      DivModUnique(x, p, 0, x);
      DivModUnique(x - v, p, 0, x - v);
    } else {
      ShortResidue(x, p, k);
      assert s[used - 1] != 0;
    }
  }

  lemma ShortResidue(x: nat, p: int, k: nat)
    requires p == Pow(k + 1)
    ensures LimbCount(x % p) <= k + 1
  {
    DigitsValue(x % p);
    ShortNumeral(Digits(x % p), LimbCount(x % p), k + 1);
  }

  /** A multiple of the modulus for which something is rounded is rejected, whatever the result buffer held. */
  lemma MultipleRejected(before: seq<uint32>, x: int, m: int, k: nat)
    requires |before| == SIZE && Operands(x, m, k) && m > Pow(k - 1)
    requires x % m == 0 && !NothingRounded(x, m, k)
    ensures !Succeeds(before, x, m, k)
  {
    RestIsSmall(x, m, k);
    SmallQuotient(Rest(x, m, k), m);
  }

  /** For instance x = m = 3. */
  lemma MultipleIsRejected(before: seq<uint32>)
    requires |before| == SIZE
    ensures Operands(3, 3, 1) && !Succeeds(before, 3, 3, 1)
  {
    assert Pow(2) == BASE * Pow(1) && Pow(1) == BASE * Pow(0);
    MultipleRejected(before, 3, 3, 1);
  }

  /** The estimate looks at x from limb k - 1 on only. */
  lemma SameEstimate(x: nat, y: nat, m: int, k: nat)
    requires m > 0 && k > 0 && x / Pow(k - 1) == y / Pow(k - 1)
    ensures Estimated(x, m, k) == Estimated(y, m, k)
  {
  }

  /** The rest of x + 1, for x without low limbs and estimated exactly. */
  lemma RestOfSuccessor(x: nat, m: int, k: nat)
    requires Operands(x, m, k) && m > Pow(k - 1) && x + 1 < Pow(2 * k) && x % m == 0 && NothingRounded(x, m, k)
    requires (x + 1) / Pow(k - 1) == x / Pow(k - 1)
    ensures Rest(x + 1, m, k) == 1
  {
    SameEstimate(x + 1, x, m, k);
    RestIsSmall(x, m, k);
    RestIsSmall(x + 1, m, k);
  }

  lemma CubeOverTwice(b: int, x: int, m: int)
    requires b > 2 && b % 2 == 0 && x == b * b * b && m == 2 * b
    ensures x % m == 0 && (x + 1) % m == 1 && (b * x) % m == 0
    ensures x / b == b * b && (x + 1) / b == b * b && x % b == 0
    ensures 0 < m < b * b && m <= x && x + 1 < b * x
  {
    var h := b / 2;
    assert x == (h * b) * m by {
      assert b == 2 * h;
    }
    DivModUnique(x, m, h * b, 0);
    DivModUnique(x + 1, m, h * b, 1);
    assert b * x == (h * b * b) * m;
    DivModUnique(b * x, m, h * b * b, 0);
    DivModUnique(x, b, b * b, 0);
    DivModUnique(x + 1, b, b * b, 1);
    MulLe(3, b, b);
    MulLe(3, b, b * b);
    MulLe(3, b, x);
  }

  lemma FiveAtOne(before: seq<uint32>)
    requires |before| == SIZE && before[1] == 5 && forall i :: 0 <= i < SIZE && i != 1 ==> before[i] == 0
    ensures Stale(before, 1) == 5 * Pow(1)
  {
    ValZeroTail(before, 2, SIZE);
    assert Val(before, 1) == Val(before, 0) + before[0] * Pow(0) == 0;
    assert Val(before, 2) == Val(before, 1) + before[1] * Pow(1);
  }

  lemma OneLimbWritten(x: nat, k: nat)
    requires k > 0 && x % Pow(k + 1) == 0
    ensures Written(x + 1, 1, k) == 1
  {
    PowMono(0, k);
    assert Pow(k + 1) == BASE * Pow(k);
    DivModUnique(x + 1, Pow(k + 1), x / Pow(k + 1), 1);
    assert LimbCount(1) == 1 + LimbCount(0);
  }

  /**
   A reported success with a wrong, negative result: x = B^3 + 1 and m = 2 B, into a buffer that holds 5 B.
  */
  lemma StaleLimbIsTaken(before: seq<uint32>, x: nat, m: nat)
    requires x == Pow(3) && m == 2 * Pow(1)
    requires |before| == SIZE && before[1] == 5 && forall i :: 0 <= i < SIZE && i != 1 ==> before[i] == 0
    ensures Operands(x + 1, m, 2) && Succeeds(before, x + 1, m, 2)
    ensures Result(before, x + 1, m, 2) == 1 - m && (x + 1) % m == 1
  {
    var b := BASE;
    assert Pow(1) == b && Pow(2) == b * b && x == b * b * b && Pow(4) == b * x;
    CubeOverTwice(b, x, m);
    RestOfSuccessor(x, m, 2);
    DivModUnique(x, x, 1, 0);
    OneLimbWritten(x, 2);
    FiveAtOne(before);
  }
}
