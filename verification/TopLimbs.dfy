/** What the top limbs of a numeral say about its value. */
module TopLimbs {
  import opened Word
  import opened Limbs
  import opened DigitEstimate

  function LimbOrZero(s: seq<uint32>, i: int): int
    requires i < |s|
  {
    if i < 0 then 0 else s[i]
  }

  function TopThree(s: seq<uint32>, i: nat): int
    requires 0 < i < |s|
  {
    s[i] * (BASE * BASE) + s[i - 1] * BASE + LimbOrZero(s, i - 2)
  }

  function TopTwo(s: seq<uint32>, t: nat): int
    requires t < |s|
  {
    s[t] * BASE + LimbOrZero(s, t - 1)
  }

  /** The limbs below the three top ones, one limb up. */
  function RestBelowThree(s: seq<uint32>, i: nat): int
    requires 0 < i < |s|
  {
    if i == 1 then 0 else BASE * Val(s, i - 2)
  }

  function RestBelowTwo(s: seq<uint32>, t: nat): int
    requires t < |s|
  {
    if t == 0 then 0 else BASE * Val(s, t - 1)
  }

  lemma TopThreeValue(s: seq<uint32>, i: nat)
    requires 0 < i < |s| && Proper(s, i + 1)
    ensures BASE * Val(s, i + 1) == TopThree(s, i) * Pow(i - 1) + RestBelowThree(s, i)
    ensures 0 <= RestBelowThree(s, i) < Pow(i - 1)
  {
    assert Val(s, i + 1) == Val(s, i) + s[i] * Pow(i);
    assert Val(s, i) == Val(s, i - 1) + s[i - 1] * Pow(i - 1);
    if i == 1 {
      assert Val(s, 0) == 0;
    } else {
      assert Val(s, i - 1) == Val(s, i - 2) + s[i - 2] * Pow(i - 2);
      ValBound(s, i - 2);
      ThreeTerms(s[i], s[i - 1], s[i - 2], Pow(i - 2));
    }
  }

  lemma ThreeTerms(a: int, b: int, c: int, p: int)
    ensures BASE * (a * (BASE * (BASE * p)) + b * (BASE * p) + c * p)
              == (a * (BASE * BASE) + b * BASE + c) * (BASE * p)
  {
  }

  lemma TopTwoValue(s: seq<uint32>, t: nat)
    requires t < |s| && Proper(s, t + 1)
    ensures BASE * Val(s, t + 1) == TopTwo(s, t) * Pow(t) + RestBelowTwo(s, t)
    ensures 0 <= RestBelowTwo(s, t) < Pow(t)
  {
    assert Val(s, t + 1) == Val(s, t) + s[t] * Pow(t);
    if t > 0 {
      assert Val(s, t) == Val(s, t - 1) + s[t - 1] * Pow(t - 1);
      ValBound(s, t - 1);
      TwoTerms(s[t], s[t - 1], Pow(t - 1));
    }
  }

  lemma TwoTerms(a: int, b: int, p: int)
    ensures BASE * (a * (BASE * p) + b * p) == (a * BASE + b) * (BASE * p)
  {
  }

  /** The remainder and the shifted divisor, seen through their top limbs. */
  lemma TopsAreScaled(xs: seq<uint32>, i: nat, ys: seq<uint32>, t: nat, w: int) returns (lx: int, lw: int)
    requires t < |ys| && t < i < |xs| && Proper(xs, i + 1) && Proper(ys, t + 1)
    requires ys[t] >= HALF_TOP && w == Val(ys, t + 1) * Pow(i - t - 1)
    requires Val(xs, i + 1) < BASE * w
    ensures Scaled(Val(xs, i + 1), w, TopThree(xs, i), TopTwo(ys, t), Pow(i - 1), lx, lw)
  {
    var q := Pow(i - t - 1);
    TopThreeValue(xs, i);
    TopTwoValue(ys, t);
    PowSplit(i - 1, t);
    lx := RestBelowThree(xs, i);
    lw := RestBelowTwo(ys, t) * q;
    ScaleTwo(Val(ys, t + 1), TopTwo(ys, t), Pow(t), RestBelowTwo(ys, t), q, w);
    assert Val(ys, t + 1) >= 1 by {
      ValLower(ys, t, t + 1);
      MulLe(1, ys[t], Pow(t));
    }
    MulLe(1, Val(ys, t + 1), q);
  }

  lemma ScaleTwo(y: int, y2: int, p: int, ly: int, q: int, w: int)
    requires BASE * y == y2 * p + ly && 0 <= ly < p && q > 0 && w == y * q
    ensures BASE * w == y2 * (p * q) + ly * q
    ensures 0 <= ly * q < p * q
  {
    assert BASE * (y * q) == (BASE * y) * q;
    assert (y2 * p + ly) * q == y2 * (p * q) + ly * q;
    MulLe(0, ly, q);
    MulLe(ly + 1, p, q);
    assert (ly + 1) * q == ly * q + q;
  }
}

/** The search for one quotient digit, on values. */
module DigitSearch {
  import opened Word
  import opened Limbs
  import opened DigitEstimate
  import opened TopLimbs

  /** `w` is the divisor, shifted so that the quotient x / w is the digit that limb `i` of the remainder
      decides. */
  ghost predicate Position(xs: seq<uint32>, i: nat, ys: seq<uint32>, t: nat, w: int) {
    && t < |ys| && t < i < |xs| && Proper(xs, i + 1) && Proper(ys, t + 1)
    && ys[t] >= HALF_TOP && w == Val(ys, t + 1) * Pow(i - t - 1) && w > 0
    && Val(xs, i + 1) < BASE * w
  }

  /** What is known of a guess for the digit `d` that may still have to be lowered. */
  ghost predicate Candidate(d: int, g: int, x2: int, x1: int, yt: int) {
    0 <= d <= g < BASE && (x2 == 0 ==> g * yt <= x1)
  }

  lemma FirstCandidate(xs: seq<uint32>, i: nat, ys: seq<uint32>, t: nat, w: int)
    requires Position(xs, i, ys, t, w)
    ensures xs[i] <= ys[t]
    ensures Candidate(Val(xs, i + 1) / w, FirstGuess(xs[i], xs[i - 1], ys[t]), xs[i], xs[i - 1], ys[t])
  {
    var x := Val(xs, i + 1);
    var lx, lw := TopsAreScaled(xs, i, ys, t, w);
    var x3, y2, p := TopThree(xs, i), TopTwo(ys, t), Pow(i - 1);
    var x0, y1 := LimbOrZero(xs, i - 2), LimbOrZero(ys, t - 1);
    DigitPassesTest(x, w, x3, y2, p, lx, lw);
    TopLimbBound(x, w, x3, y2, p, lx, lw, xs[i], xs[i - 1] * BASE + x0, ys[t], y1);
    FirstGuessNotSmall(x / w, xs[i], xs[i - 1], x0, ys[t], y1);
    if xs[i] == 0 {
      var e: int := xs[i - 1];
      assert e == (e / ys[t]) * ys[t] + e % ys[t];
    }
  }

  /** A guess that fails the test is too large. */
  lemma LowerCandidate(xs: seq<uint32>, i: nat, ys: seq<uint32>, t: nat, w: int, g: int)
    requires Position(xs, i, ys, t, w) && Candidate(Val(xs, i + 1) / w, g, xs[i], xs[i - 1], ys[t])
    requires g * TopTwo(ys, t) > TopThree(xs, i)
    ensures g > 0 && Candidate(Val(xs, i + 1) / w, g - 1, xs[i], xs[i - 1], ys[t])
  {
    var x := Val(xs, i + 1);
    var lx, lw := TopsAreScaled(xs, i, ys, t, w);
    DigitPassesTest(x, w, TopThree(xs, i), TopTwo(ys, t), Pow(i - 1), lx, lw);
    assert x / w != g;
    if xs[i] == 0 {
      MulLe(g - 1, g, ys[t]);
    }
  }

  /** A guess that is accepted is at most one too large. */
  lemma AcceptCandidate(xs: seq<uint32>, i: nat, ys: seq<uint32>, t: nat, w: int, g: int)
    requires Position(xs, i, ys, t, w) && Candidate(Val(xs, i + 1) / w, g, xs[i], xs[i - 1], ys[t])
    requires xs[i] != 0 ==> g * TopTwo(ys, t) <= TopThree(xs, i)
    ensures g * w < Val(xs, i + 1) + w
  {
    var x := Val(xs, i + 1);
    var lx, lw := TopsAreScaled(xs, i, ys, t, w);
    var x3, y2, p := TopThree(xs, i), TopTwo(ys, t), Pow(i - 1);
    if xs[i] == 0 {
      SmallGuess(g, x3, xs[i - 1], ys[t], LimbOrZero(ys, t - 1));
    }
    PassingGuess(g, x, w, x3, y2, p, lx, lw);
  }
}
