/**
 The arithmetic of one round of long division (HAC Algorithm 14.20).

 Throughout, `x` is the running remainder and `w` the divisor shifted to the current position, with
 x < B w, so that the quotient digit x / w is below B. Scaled by one limb, `x3` is what the three top
 limbs of the remainder say about it, and `y2` what the two top limbs of the divisor say:
 B x = x3 p + lx and B w = y2 p + lw with lx, lw < p.
*/
module DigitEstimate {
  import opened Limbs

  /** The normalisation of the divisor: its top limb has exactly 27 bits. */
  const HALF_TOP: int := 0x400_0000

  ghost predicate Scaled(x: int, w: int, x3: int, y2: int, p: int, lx: int, lw: int) {
    && p > 0 && 0 <= lx < p && 0 <= lw < p
    && BASE * x == x3 * p + lx
    && BASE * w == y2 * p + lw
    && w > 0 && 0 <= x < BASE * w && y2 >= HALF_TOP * BASE
  }

  /** The quotient digit passes the comparison with the top limbs. */
  lemma DigitPassesTest(x: int, w: int, x3: int, y2: int, p: int, lx: int, lw: int)
    requires Scaled(x, w, x3, y2, p, lx, lw)
    ensures (x / w) * y2 <= x3
    ensures 0 <= x / w < BASE
  {
    var d := x / w;
    DigitRange(x, w);
    assert d * (y2 * p + lw) <= x3 * p + lx by {
      assert BASE * (d * w) == d * (BASE * w);
      MulLe(d * w, x, BASE);
    }
    assert d * (y2 * p + lw) == (d * y2) * p + d * lw;
    MulLe(0, d, lw);
    if d * y2 >= x3 + 1 {
      MulLe(x3 + 1, d * y2, p);
    }
  }

  lemma DigitRange(x: int, w: int)
    requires w > 0 && 0 <= x < BASE * w
    ensures 0 <= x / w < BASE
    ensures (x / w) * w <= x < (x / w) * w + w
  {
    var d := x / w;
    assert x == d * w + x % w;
    if d >= BASE {
      MulLe(BASE, d, w);
    }
    if d < 0 {
      MulLe(d, -1, w);
    }
  }

  /** The top limb of the remainder does not exceed that of the divisor. */
  lemma TopLimbBound(x: int, w: int, x3: int, y2: int, p: int, lx: int, lw: int, x2: int, x10: int, yt: int, y1: int)
    requires Scaled(x, w, x3, y2, p, lx, lw)
    requires x3 == x2 * (BASE * BASE) + x10 && 0 <= x10
    requires y2 == yt * BASE + y1 && 0 <= y1 < BASE
    ensures x2 <= yt
  {
    assert x3 * p < (BASE * y2 + BASE) * p by {
      assert BASE * (BASE * w) == (BASE * y2) * p + BASE * lw;
      assert (BASE * y2 + BASE) * p == (BASE * y2) * p + BASE * p;
    }
    if x3 >= BASE * y2 + BASE {
      MulLe(BASE * y2 + BASE, x3, p);
    }
  }

  /** The first guess, from two limbs over one. */
  function FirstGuess(x2: int, x1: int, yt: int): int
    requires yt > 0
  {
    if x2 == yt then BN_MASK
    else if (x2 * BASE + x1) / yt > BN_MASK then BN_MASK
    else (x2 * BASE + x1) / yt
  }

  /** The first guess is never too small. */
  lemma FirstGuessNotSmall(d: int, x2: int, x1: int, x0: int, yt: int, y1: int)
    requires 0 <= d < BASE && yt > 0 && y1 >= 0 && x0 < BASE
    requires d * (yt * BASE + y1) <= x2 * (BASE * BASE) + x1 * BASE + x0
    ensures d <= FirstGuess(x2, x1, yt)
  {
    var e := x2 * BASE + x1;
    assert d * (yt * BASE + y1) == (d * yt) * BASE + d * y1;
    MulLe(0, d, y1);
    assert d * yt <= e;
    assert e == (e / yt) * yt + e % yt;
    if d >= e / yt + 1 {
      MulLe(e / yt + 1, d, yt);
    }
  }

  /** A guess that passes the test on the top limbs, or misses it by little, is at most one too large. */
  lemma PassingGuess(g: int, x: int, w: int, x3: int, y2: int, p: int, lx: int, lw: int)
    requires Scaled(x, w, x3, y2, p, lx, lw) && 0 <= g < BASE
    requires g * y2 <= x3 + 3 * BASE
    ensures g * w < x + w
  {
    assert BASE * (g * w) == (g * y2) * p + g * lw by {
      assert BASE * (g * w) == g * (BASE * w);
      assert g * (y2 * p + lw) == (g * y2) * p + g * lw;
    }
    MulLe(g * y2, x3 + 3 * BASE, p);
    assert (x3 + 3 * BASE) * p == x3 * p + 3 * BASE * p;
    MulLe(lw, p, g);
    MulLe(g, BASE - 1, p);
    MulLe(HALF_TOP * BASE, y2, p);
  }

  /** When the top limb of the remainder is zero the comparison may be decided by lengths alone; the guess
      is then x1 / yt, below 4, and misses the test by little. */
  lemma SmallGuess(g: int, x3: int, x1: int, yt: int, y1: int)
    requires 0 <= g && 0 <= y1 < BASE && yt >= HALF_TOP
    requires x3 >= x1 * BASE && 0 <= x1 < BASE && g * yt <= x1
    ensures g < 4
    ensures g * (yt * BASE + y1) <= x3 + 3 * BASE
  {
    if g >= 4 {
      MulLe(4, g, yt);
    }
    assert g * (yt * BASE + y1) == (g * yt) * BASE + g * y1;
    MulLe(g, 3, y1);
  }
}
