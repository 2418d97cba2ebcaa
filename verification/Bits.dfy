/** The bits of a natural number, and what the bitwise operators do to them. */
module Bits {
  import opened Word
  import opened Limbs

  /** Bit `k` of `a`. */
  predicate Bit(a: nat, k: nat)
    decreases k
  {
    if k == 0 then a % 2 == 1 else Bit(a / 2, k - 1)
  }

  lemma Pow2Word()
    ensures Pow2(32) == TWO_32
  {
    assert Pow2(8) == 256;
    Pow2Add(8, 8);
    Pow2Add(16, 16);
  }

  lemma {:induction false} ZeroBit(k: nat)
    ensures !Bit(0, k)
    decreases k
  {
    if k > 0 {
      ZeroBit(k - 1);
    }
  }

  lemma {:induction false} OrBit(a: nat, b: nat, k: nat)
    ensures Bit(BitOr(a, b), k) == (Bit(a, k) || Bit(b, k))
    decreases k
  {
    if a == 0 && b == 0 {
      ZeroBit(k);
    } else if k > 0 {
      OrBit(a / 2, b / 2, k - 1);
    }
  }

  lemma {:induction false} AndBit(a: nat, b: nat, k: nat)
    ensures Bit(BitAnd(a, b), k) == (Bit(a, k) && Bit(b, k))
    decreases k
  {
    if a == 0 || b == 0 {
      ZeroBit(k);
    } else if k > 0 {
      AndBit(a / 2, b / 2, k - 1);
    }
  }

  lemma {:induction false} PowerBit(n: nat, k: nat)
    ensures Bit(Pow2(n), k) == (n == k)
    decreases k
  {
    if n == 0 {
      if k > 0 {
        ZeroBit(k - 1);
      }
    } else if k > 0 {
      PowerBit(n - 1, k - 1);
    }
  }

  lemma {:induction false} HighBit(a: nat, n: nat, k: nat)
    requires a < Pow2(n) && n <= k
    ensures !Bit(a, k)
    decreases k
  {
    if n == 0 {
      ZeroBit(k);
    } else {
      HighBit(a / 2, n - 1, k - 1);
    }
  }

  /** The `n`-bit complement of `a`. */
  function Complement(a: nat, n: nat): nat
    requires a < Pow2(n)
  {
    Pow2(n) - 1 - a
  }

  lemma {:induction false} ComplementBit(a: nat, n: nat, k: nat)
    requires a < Pow2(n) && k < n
    ensures Bit(Complement(a, n), k) == !Bit(a, k)
    decreases k
  {
    var c := Complement(a, n);
    assert c % 2 == 1 - a % 2 && c / 2 == Pow2(n - 1) - 1 - a / 2;
    if k > 0 {
      ComplementBit(a / 2, n - 1, k - 1);
    }
  }

  lemma {:induction false} SameBits(a: nat, b: nat, n: nat)
    requires a < Pow2(n) && b < Pow2(n)
    requires forall k :: 0 <= k < n ==> Bit(a, k) == Bit(b, k)
    ensures a == b
  {
    if n > 0 {
      assert Bit(a, 0) == Bit(b, 0);
      forall k | 0 <= k < n - 1
        ensures Bit(a / 2, k) == Bit(b / 2, k)
      {
        assert Bit(a, k + 1) == Bit(b, k + 1);
      }
      SameBits(a / 2, b / 2, n - 1);
    }
  }

  lemma {:induction false} OrBound(a: nat, b: nat, n: nat)
    requires a < Pow2(n) && b < Pow2(n)
    ensures BitOr(a, b) < Pow2(n)
  {
    if n > 0 && (a != 0 || b != 0) {
      OrBound(a / 2, b / 2, n - 1);
    }
  }

  /** The number of bits of `n`: the position of its highest bit, plus one. */
  function Width(n: nat): (w: nat)
    ensures n < Pow2(w) && (n > 0 ==> w > 0 && Pow2(w - 1) <= n)
  {
    if n == 0 then 0 else 1 + Width(n / 2)
  }

  lemma {:induction false} WidthBound(n: nat, k: nat)
    requires n < Pow2(k)
    ensures Width(n) <= k
  {
    if n > 0 {
      WidthBound(n / 2, k - 1);
    }
  }

  /** Or of a low part and a shifted part is their sum. */
  lemma {:induction false} OrDisjoint(a: nat, b: nat, n: nat, high: nat)
    requires a < Pow2(n) && high == Pow2(n) * b
    ensures BitOr(a, high) == a + high
    decreases n
  {
    if n == 0 {
      OrZero(b);
    } else {
      var half := Pow2(n - 1) * b;
      Twice(Pow2(n - 1), b);
      OrDisjoint(a / 2, b, n - 1, half);
      OrStep(a, half);
    }
  }

  lemma Twice(p: nat, b: nat)
    ensures p * b >= 0 && (2 * p) * b == 2 * (p * b)
  {
  }

  lemma OrStep(a: nat, half: nat)
    requires BitOr(a / 2, half) == a / 2 + half
    ensures BitOr(a, 2 * half) == a + 2 * half
  {
    assert (2 * half) / 2 == half && (2 * half) % 2 == 0;
  }

  lemma {:induction false} OrZero(b: nat)
    ensures BitOr(0, b) == b
    decreases b
  {
    if b > 0 {
      OrZero(b / 2);
    }
  }

  lemma {:induction false} OrCommutative(a: nat, b: nat)
    ensures BitOr(a, b) == BitOr(b, a)
    decreases a + b
  {
    if a + b > 0 {
      OrCommutative(a / 2, b / 2);
    }
  }

  lemma {:induction false} OrAssociative(a: nat, b: nat, c: nat)
    ensures BitOr(BitOr(a, b), c) == BitOr(a, BitOr(b, c))
    decreases a + b + c
  {
    if a + b + c > 0 {
      OrAssociative(a / 2, b / 2, c / 2);
      OrHalves(a, b);
      OrHalves(b, c);
    }
  }

  lemma OrHalves(a: nat, b: nat)
    ensures BitOr(a, b) / 2 == BitOr(a / 2, b / 2)
    ensures BitOr(a, b) % 2 == if a % 2 == 1 || b % 2 == 1 then 1 else 0
  {
  }

  lemma {:induction false} AndCommutative(a: nat, b: nat)
    ensures BitAnd(a, b) == BitAnd(b, a)
    decreases a + b
  {
    if a != 0 && b != 0 {
      AndCommutative(a / 2, b / 2);
    }
  }

  /** And with one bit tells that bit. */
  lemma {:induction false} AndPower(a: nat, n: nat)
    ensures BitAnd(a, Pow2(n)) == if Bit(a, n) then Pow2(n) else 0
    decreases n
  {
    if a == 0 {
      ZeroBit(n);
    } else if n == 0 {
      assert BitAnd(a / 2, 0) == 0;
    } else {
      AndPower(a / 2, n - 1);
    }
  }

  // Bits by division, and of parts of a number

  lemma HalfOfLow(a: nat, p: nat)
    requires p > 0
    ensures a % (2 * p) / 2 == a / 2 % p && a % (2 * p) % 2 == a % 2
  {
    var q := a / 2 / p;
    assert a / 2 == q * p + a / 2 % p && a == 2 * (a / 2) + a % 2;
    assert q * (2 * p) == 2 * (q * p);
    DivModUnique(a, 2 * p, q, 2 * (a / 2 % p) + a % 2);
  }

  lemma HalfThen(a: nat, p: int)
    requires p > 0
    ensures a / 2 / p == a / (2 * p)
  {
    var q := a / (2 * p);
    assert a == q * (2 * p) + a % (2 * p) && q * (2 * p) == 2 * (q * p);
    var r := a % (2 * p);
    assert a / 2 == q * p + r / 2;
    DivModUnique(a / 2, p, q, r / 2);
  }

  lemma {:induction false} BitByDivision(a: nat, k: nat)
    ensures Bit(a, k) <==> a / Pow2(k) % 2 == 1
    decreases k
  {
    if k > 0 {
      BitByDivision(a / 2, k - 1);
      HalfThen(a, Pow2(k - 1));
    }
  }

  /** The bits of a quotient by a power of two. */
  lemma {:induction false} BitAbove(a: nat, n: nat, q: nat, k: nat)
    requires q == a / Pow2(n)
    ensures Bit(q, k) == Bit(a, n + k)
    decreases n
  {
    if n == 0 {
      assert a / 1 == a;
    } else {
      HalfThen(a, Pow2(n - 1));
      BitAbove(a / 2, n - 1, q, k);
    }
  }

  lemma {:induction false} LowBitsOf(v: nat, n: nat, k: nat)
    ensures Bit(v % Pow2(n), k) <==> k < n && Bit(v, k)
    decreases n
  {
    if n == 0 {
      ZeroBit(k);
    } else {
      HalfOfLow(v, Pow2(n - 1));
      if k > 0 {
        LowBitsOf(v / 2, n - 1, k - 1);
      }
    }
  }

  lemma TwiceProduct(q: nat, p: nat)
    ensures q * (2 * p) % 2 == 0 && q * (2 * p) / 2 == q * p
  {
    assert q * (2 * p) == 2 * (q * p);
  }

  lemma {:induction false} MultipleBits(q: nat, n: nat, k: nat)
    ensures Bit(q * Pow2(n), k) <==> n <= k && Bit(q, k - n)
    decreases n
  {
    if n > 0 {
      MultipleBits(q, n - 1, if k > 0 then k - 1 else 0);
      TwiceProduct(q, Pow2(n - 1));
    }
  }

  lemma {:induction false} SomeBit(m: nat)
    requires m > 0
    ensures exists k: nat :: Bit(m, k)
  {
    if m % 2 == 1 {
      assert Bit(m, 0);
    } else {
      SomeBit(m / 2);
      var k: nat :| Bit(m / 2, k);
      assert Bit(m, k + 1);
    }
  }

  lemma {:induction false} NoHighBits(m: nat, n: nat)
    requires forall k :: n <= k ==> !Bit(m, k)
    ensures m < Pow2(n)
    decreases m
  {
    if m > 0 {
      if n == 0 {
        SomeBit(m);
        assert false;
      }
      forall k | n - 1 <= k
        ensures !Bit(m / 2, k)
      {
        assert !Bit(m, k + 1);
      }
      NoHighBits(m / 2, n - 1);
    }
  }

  /** The bits of a field of `w` bits from bit `n` on. */
  lemma FieldBits(a: nat, n: nat, w: nat, q: nat, k: nat)
    requires q == a / Pow2(n)
    ensures Bit(q % Pow2(w), k) <==> k < w && Bit(a, n + k)
  {
    LowBitsOf(q, w, k);
    BitAbove(a, n, q, k);
  }

  /** Taking away a bit that is set. */
  lemma {:induction false} BitTaken(a: nat, n: nat, k: nat)
    requires Bit(a, n)
    ensures a >= Pow2(n) && (Bit(a - Pow2(n), k) <==> k != n && Bit(a, k))
    decreases n
  {
    if n > 0 {
      BitTaken(a / 2, n - 1, if k > 0 then k - 1 else 0);
      assert (a - Pow2(n)) / 2 == a / 2 - Pow2(n - 1);
    }
  }
}
