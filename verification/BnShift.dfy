/** Shifts by limbs and by bits. */
module BnShift {
  import opened Word
  import opened Limbs
  import opened BigNum

  method MoveDown(dest: array<uint32>, src: array<uint32>, shift: nat, used: nat)
    requires shift <= used <= dest.Length == src.Length
    modifies dest
    ensures forall k :: 0 <= k < used - shift ==> dest[k] == old(src[k + shift])
    ensures forall k :: used - shift <= k < dest.Length ==> dest[k] == old(dest[k])
  {
    for i := shift to used
      invariant forall k :: 0 <= k < i - shift ==> dest[k] == old(src[k + shift])
      invariant forall k :: i - shift <= k < dest.Length ==> dest[k] == old(dest[k])
      invariant forall k :: i - shift <= k < src.Length ==> src[k] == old(src[k])
    {
      dest[i - shift] := src[i];
    }
  }

  lemma ValMovedDown(s: seq<uint32>, t: seq<uint32>, shift: nat, used: nat)
    requires shift <= used <= |s| == |t| && Proper(s, used)
    requires forall k :: 0 <= k < used - shift ==> t[k] == s[k + shift]
    ensures Val(t, used - shift) == Val(s, used) / Pow(shift)
    ensures Proper(t, used - shift)
  {
    ValDivMod(s, shift, used);
    ValCong(t, s[shift..], used - shift);
  }

  lemma ValDropped(s: seq<uint32>, used: nat, shift: nat)
    requires used <= |s| && used <= shift && Proper(s, used)
    ensures Val(s, used) / Pow(shift) == 0
  {
    ValBound(s, used);
    PowMono(used, shift);
    DivModUnique(Val(s, used), Pow(shift), 0, Val(s, used));
  }

  /** dest = src / B^shift: the low limbs are dropped. */
  method ShiftDigR(dest: KcBignum, src: KcBignum, shift: nat)
    requires dest.Valid() && src.Valid() && Apart(dest, src)
    modifies dest, dest.data
    ensures dest.Valid()
    ensures dest.Abs() == old(src.Abs()) / Pow(shift)
    ensures dest.used == old(if src.used <= shift then 0 else src.used - shift)
    ensures dest.sign == old(if src.used <= shift && shift > 0 then 0 else src.sign)
    ensures old(src.Trimmed()) ==> dest.Trimmed()
  {
    ghost var S := src.limbs;
    if shift == 0 {
      if src != dest {
        Copy(dest, src);
      }
      return;
    }
    if src.used <= shift {
      ValDropped(S, src.used, shift);
      Zero(dest);
    } else {
      var used, sign := src.used, src.sign;
      MoveDown(dest.data, src.data, shift, used);
      dest.limbs := dest.data[..];
      dest.used, dest.sign := used - shift, sign;
      ValMovedDown(S, dest.limbs, shift, used);
    }
  }

  /** The two loops of the move: from the top down, then zeros. */
  method MoveUpInPlace(dest: array<uint32>, src: array<uint32>, shift: nat, used: nat)
    requires 0 < shift && used + shift <= dest.Length == src.Length
    modifies dest
    ensures forall k :: 0 <= k < shift ==> dest[k] == 0
    ensures forall k :: shift <= k < used + shift ==> dest[k] == old(src[k - shift])
    ensures forall k :: used + shift <= k < dest.Length ==> dest[k] == old(dest[k])
  {
    var i := used + shift - 1;
    while i >= shift
      invariant shift - 1 <= i < used + shift
      invariant forall k :: i < k < used + shift ==> dest[k] == old(src[k - shift])
      invariant forall k :: used + shift <= k < dest.Length ==> dest[k] == old(dest[k])
      invariant forall k :: 0 <= k <= i ==> src[k] == old(src[k])
    {
      dest[i] := src[i - shift];
      i := i - 1;
    }
    for j := 0 to shift
      invariant forall k :: 0 <= k < j ==> dest[k] == 0
      invariant forall k :: shift <= k < used + shift ==> dest[k] == old(src[k - shift])
      invariant forall k :: used + shift <= k < dest.Length ==> dest[k] == old(dest[k])
    {
      dest[j] := 0;
    }
  }

  method MoveUp(dest: array<uint32>, src: array<uint32>, shift: nat, used: nat)
    requires 0 < shift && used + shift <= dest.Length == src.Length
    modifies dest
    ensures ZeroFrom(dest[..], 0, shift)
    ensures dest[shift..used + shift] == old(src[..used])
    ensures dest[used + shift..] == old(dest[used + shift..])
  {
    ghost var was, before := src[..], dest[..];
    MoveUpInPlace(dest, src, shift, used);
    UpDone(was, before, dest[..], shift, used + shift);
  }

  lemma UpDone(was: seq<uint32>, before: seq<uint32>, now: seq<uint32>, shift: nat, top: nat)
    requires |now| == |was| == |before| && shift <= top <= |now|
    requires forall k :: 0 <= k < shift ==> now[k] == 0
    requires forall k :: shift <= k < top ==> now[k] == was[k - shift]
    requires forall k :: top <= k < |now| ==> now[k] == before[k]
    ensures ZeroFrom(now, 0, shift) && now[shift..top] == was[..top - shift] && now[top..] == before[top..]
  {
  }

  /** Limbs moved up over zeros are worth B^shift times as much. */
  lemma {:induction false} ValShifted(s: seq<uint32>, t: seq<uint32>, shift: nat, used: nat)
    requires used <= |s| && used + shift <= |t|
    requires ZeroFrom(t, 0, shift)
    requires forall k :: 0 <= k < used ==> t[k + shift] == s[k]
    ensures Val(t, used + shift) == ShlLimbs(Val(s, used), shift)
  {
    ShlLimbsIsProduct(Val(s, used), shift);
    if used == 0 {
      ValZeroTail(t, 0, shift);
    } else {
      ValShifted(s, t, shift, used - 1);
      ShlLimbsIsProduct(Val(s, used - 1), shift);
      assert t[used - 1 + shift] == s[used - 1];
      PowAdd(shift, used - 1);
      Regroup(Pow(shift), Val(s, used - 1), s[used - 1], Pow(used - 1));
    }
  }

  lemma ShlLimbsByNothing(v: int, k: nat)
    requires v == 0 || k == 0
    ensures ShlLimbs(v, k) == v
  {
    ShlLimbsIsProduct(v, k);
  }

  /** dest = src * B^shift, unless that needs more than 80 limbs. */
  method ShiftDigL(dest: KcBignum, src: KcBignum, shift: nat) returns (status: Status)
    requires dest.Valid() && src.Valid() && Apart(dest, src)
    modifies dest, dest.data
    ensures dest.Valid()
    ensures status == if old(src.used) > 0 && old(src.used) + shift > 80 then BufferOverflow else Ok
    ensures status == Ok ==>
              && dest.Abs() == ShlLimbs(old(src.Abs()), shift)
              && dest.used == old(if src.used == 0 then 0 else src.used + shift)
              && (dest.used > 0 ==> dest.limbs[dest.used - 1] == old(src.limbs)[old(src.used) - 1])
              && dest.sign == old(src.sign)
              && (old(src.Trimmed()) ==> dest.Trimmed())
    ensures status != Ok ==> dest.used == old(dest.used) && dest.sign == old(dest.sign) && dest.limbs == old(dest.limbs)
  {
    if shift == 0 || src.used == 0 {
      ShlLimbsByNothing(src.Abs(), shift);
      if src != dest {
        Copy(dest, src);
      }
      return Ok;
    }
    if src.used + shift > MAX_BN_ELEMENTS {
      return BufferOverflow;
    }
    MoveLimbsUp(dest, src, shift);
    return Ok;
  }

  method MoveLimbsUp(dest: KcBignum, src: KcBignum, shift: nat)
    requires dest.Valid() && src.Valid() && Apart(dest, src)
    requires 0 < shift && 0 < src.used && src.used + shift <= MAX_BN_ELEMENTS
    modifies dest, dest.data
    ensures dest.Valid() && dest.Abs() == ShlLimbs(old(src.Abs()), shift)
    ensures dest.used == old(src.used) + shift && dest.sign == old(src.sign)
    ensures dest.limbs[dest.used - 1] == old(src.limbs)[old(src.used) - 1]
  {
    ghost var S, v := src.limbs, src.Abs();
    var used, sign := src.used, src.sign;
    MoveUp(dest.data, src.data, shift, used);
    ghost var moved := dest.data[..];
    dest.limbs := moved;
    dest.used, dest.sign := used + shift, sign;
    MovedLimbs(S, moved, shift, used, used + shift);
    assert dest.Abs() == Val(moved, used + shift) && v == Val(S, used);
  }

  lemma MovedLimbs(s: seq<uint32>, t: seq<uint32>, shift: nat, used: nat, top: nat)
    requires 0 < used <= |s| && top == used + shift <= |t| && Proper(s, used) && ZeroFrom(t, 0, shift)
    requires t[shift..top] == s[..used]
    ensures Proper(t, top) && t[top - 1] == s[used - 1]
    ensures Val(t, top) == ShlLimbs(Val(s, used), shift)
  {
    forall k | 0 <= k < used
      ensures t[k + shift] == s[k]
    {
      assert t[shift..top][k] == s[..used][k];
    }
    ProperMoved(s, t, shift, used);
    ValShifted(s, t, shift, used);
  }

  lemma ProperMoved(s: seq<uint32>, t: seq<uint32>, shift: nat, used: nat)
    requires used <= |s| && used + shift <= |t| && Proper(s, used) && ZeroFrom(t, 0, shift)
    requires forall k :: 0 <= k < used ==> t[k + shift] == s[k]
    ensures Proper(t, used + shift)
  {
    forall k | shift <= k < used + shift
      ensures t[k] < BASE
    {
      assert t[(k - shift) + shift] == s[k - shift];
    }
  }

  /** A digit shifted left by `s` bits splits into a digit and a carry. */
  lemma ShiftSplit(a: uint32, p: int, q: int)
    requires a < BASE && p > 0 && q > 0 && p * q == BASE
    ensures Wrap32(a * p) % BASE == (a % q) * p
    ensures a * p == (a / q) * BASE + (a % q) * p
    ensures 0 <= (a % q) * p <= BASE - p
    ensures 0 <= a / q < p
  {
    var h, l := a / q, a % q;
    assert a == h * q + l;
    assert a * p == h * BASE + l * p by {
      assert (h * q + l) * p == h * (q * p) + l * p;
    }
    MulLe(l, q - 1, p);
    assert (q - 1) * p == BASE - p;
    if h >= p {
      MulLe(p, h, q);
    }
    MulLe(0, l, p);
    DivModUnique(a * p, BASE, h, l * p);
    WrapMod(a * p);
  }

  /** The bit loop of the left shift; `p` is 2^shift and `q` its complement to 2^28. */
  method ShiftLoopL(dest: array<uint32>, src: array<uint32>, used: nat, p: uint32, q: uint32) returns (carry: uint32)
    requires used <= dest.Length == src.Length
    requires p > 0 && q > 0 && p * q == BASE
    requires Proper(src[..], used)
    modifies dest
    ensures carry < p && (used > 0 ==> carry == old(src[used - 1]) / q)
    ensures Proper(dest[..], used)
    ensures forall k :: used <= k < dest.Length ==> dest[k] == old(dest[k])
    ensures Val(dest[..], used) + carry * Pow(used) == old(Val(src[..], used)) * p
  {
    ghost var S := src[..];
    carry := 0;
    for i := 0 to used
      invariant carry < p && (i > 0 ==> carry == S[i - 1] / q)
      invariant forall k :: i <= k < src.Length ==> src[k] == S[k]
      invariant forall k :: i <= k < dest.Length ==> dest[k] == old(dest[k])
      invariant forall k :: 0 <= k < i ==> dest[k] < BASE
      invariant Val(dest[..], i) + carry * Pow(i) == Val(S, i) * p
    {
      ghost var before := dest[..];
      var temp: uint32 := src[i];
      ShiftSplit(temp, p, q);
      dest[i] := Wrap32(temp * p) % BASE + carry;
      ShiftDigitL(before, dest[..], i, Val(S, i), temp, p, carry, temp / q);
      carry := temp / q;
    }
  }

  lemma ShiftDigitL(before: seq<uint32>, after: seq<uint32>, i: nat, v: int, a: int, p: int, carry: int, next: int)
    requires i < |before| == |after|
    requires forall j :: 0 <= j < i ==> after[j] == before[j]
    requires after[i] + next * BASE == a * p + carry
    requires Val(before, i) + carry * Pow(i) == v * p
    ensures Val(after, i + 1) + next * Pow(i + 1) == (v + a * Pow(i)) * p
  {
    ValCong(before, after, i);
    var w := Pow(i);
    assert (after[i] + next * BASE) * w == (a * p + carry) * w;
    assert (v + a * w) * p == v * p + (a * p) * w;
    assert next * (BASE * w) == (next * BASE) * w;
  }

  /** The left shift must not carry out of limb 79; the routine leaves that to its callers. */
  ghost predicate ShiftFits(src: KcBignum, shift: nat)
    requires src.used <= |src.limbs|
    reads src
  {
    src.used > 0 && src.used + shift / BN_BITS == MAX_BN_ELEMENTS ==>
      src.limbs[src.used - 1] / Pow2(BN_BITS - shift % BN_BITS) == 0
  }

  lemma PowersForShift(shift: nat)
    requires 0 < shift < BN_BITS
    ensures 2 <= Pow2(shift) < BASE && 2 <= Pow2(BN_BITS - shift) < BASE
    ensures Pow2(shift) * Pow2(BN_BITS - shift) == BASE
  {
    Pow2Base();
    Pow2Add(shift, BN_BITS - shift);
    Pow2Mono(0, shift);
    Pow2Mono(shift, BN_BITS);
    Pow2Mono(0, BN_BITS - shift);
    Pow2Mono(BN_BITS - shift, BN_BITS);
  }

  /** Multiplying cannot clear the top limb. */
  lemma TopLimbStays(s: seq<uint32>, t: seq<uint32>, n: nat, p: int)
    requires 0 < n <= |s| && n <= |t| && s[n - 1] != 0 && p > 0
    requires Proper(t, n) && Val(t, n) == Val(s, n) * p
    ensures t[n - 1] != 0
  {
    var v, w := Val(s, n), Pow(n - 1);
    assert v >= w by {
      ValLower(s, n - 1, n);
      MulLe(1, s[n - 1], w);
    }
    assert v * p >= v by { MulLe(1, p, v); }
    ValBound(t, n - 1);
  }

  /** The result of the left shift, with the last carry stored as a new top limb if there is one. */
  lemma ShiftedUp(s: seq<uint32>, d: seq<uint32>, t: seq<uint32>, n: nat, shift: nat, carry: uint32)
    requires 0 < n <= |s| && n <= |d| == |t| && (carry != 0 ==> n < |t|)
    requires Proper(d, n) && Val(d, n) + carry * Pow(n) == Val(s, n) * Pow2(shift)
    requires forall k :: 0 <= k < n ==> t[k] == d[k]
    requires carry != 0 ==> t[n] == carry
    ensures Val(t, if carry == 0 then n else n + 1) == Shl(Val(s, n), shift)
    ensures carry == 0 && s[n - 1] != 0 ==> t[n - 1] != 0
  {
    ShlIsProduct(Val(s, n), shift);
    ValCong(d, t, n);
    if carry == 0 {
      assert carry * Pow(n) == 0;
      if s[n - 1] != 0 {
        TopLimbStays(s, d, n, Pow2(shift));
      }
    }
  }

  /** The left shift below one limb, with the last carry stored as a new top limb if there is one. */
  method ShiftArrayL(dest: array<uint32>, src: array<uint32>, used: nat, shift: nat) returns (n: nat)
    requires 0 < used <= dest.Length == src.Length && 0 < shift < BN_BITS
    requires Proper(src[..], used)
    requires used == dest.Length ==> src[used - 1] / Pow2(BN_BITS - shift) == 0
    modifies dest
    ensures used <= n <= dest.Length && Proper(dest[..], n)
    ensures Val(dest[..], n) == Shl(old(Val(src[..], used)), shift)
    ensures old(src[used - 1]) != 0 ==> dest[n - 1] != 0
  {
    PowersForShift(shift);
    ghost var S := src[..];
    var carry := ShiftLoopL(dest, src, used, Pow2(shift), Pow2(BN_BITS - shift));
    ghost var D := dest[..];
    n := used;
    if carry != 0 {
      dest[n] := carry;
      n := n + 1;
    }
    ShiftedUp(S, D, dest[..], used, shift, carry);
  }

  /** The part of the left shift below one limb: dest = src * 2^shift. */
  method ShiftFewBitsL(dest: KcBignum, src: KcBignum, shift: nat)
    requires dest.Valid() && src.Valid() && Apart(dest, src)
    requires 0 < shift < BN_BITS && src.used > 0 && ShiftFits(src, shift)
    modifies dest, dest.data
    ensures dest.Valid()
    ensures dest.Abs() == Shl(old(src.Abs()), shift)
    ensures dest.sign == old(src.sign)
    ensures old(src.Trimmed()) ==> dest.Trimmed()
  {
    var sign, used := src.sign, src.used;
    ghost var S := src.data[..];
    BelowOneLimb(shift);
    assert S == src.limbs && Proper(S, used);
    var n := ShiftArrayL(dest.data, src.data, used, shift);
    ghost var D := dest.data[..];
    assert Val(D, n) == Shl(Val(S, used), shift) && (S[used - 1] != 0 ==> D[n - 1] != 0);
    dest.limbs := D;
    dest.used, dest.sign := n, sign;
  }

  lemma BelowOneLimb(shift: nat)
    requires shift < BN_BITS
    ensures shift / BN_BITS == 0 && shift % BN_BITS == shift
  {
  }

  /** Shifting right by `digits` limbs and then by `bits` bits. */
  lemma ShiftParts(v: int, digits: nat, bits: nat)
    requires v >= 0
    ensures v / Pow2(BN_BITS * digits + bits) == (v / Pow(digits)) / Pow2(bits)
  {
    Pow2Limbs(digits, bits);
    DivTwice(v, Pow(digits), Pow2(bits));
  }

  /** Zero stays zero under shifts, and shifting by nothing is no shift. */
  lemma ShiftByNothing(w: int, bits: nat)
    ensures bits == 0 || w == 0 ==> Shl(w, bits) == w
    ensures bits == 0 || w == 0 ==> w / Pow2(bits) == w
  {
    ShlIsProduct(w, bits);
    if bits == 0 {
      assert Pow2(bits) == 1;
      DivModUnique(w, 1, w, 0);
    } else if w == 0 {
      DivModUnique(0, Pow2(bits), 0, 0);
    }
  }

  /** dest = src * 2^shift. */
  method ShiftBitsL(dest: KcBignum, src: KcBignum, shift: nat) returns (status: Status)
    requires dest.Valid() && src.Valid() && Apart(dest, src)
    requires ShiftFits(src, shift)
    modifies dest, dest.data
    ensures dest.Valid()
    ensures status ==
      if old(src.used) > 0 && old(src.used) + shift / BN_BITS > MAX_BN_ELEMENTS then BufferOverflow else Ok
    ensures status == Ok ==>
              && dest.Abs() == Shl(old(src.Abs()), shift)
              && dest.sign == old(src.sign)
              && (old(src.Trimmed()) ==> dest.Trimmed())
  {
    ghost var v := src.Abs();
    ShiftByNothing(v, shift);
    if shift == 0 || src.used == 0 {
      if src != dest {
        Copy(dest, src);
      }
      return Ok;
    }
    status := Ok;
    var digits, bits := shift / BN_BITS, shift % BN_BITS;
    ShlParts(v, digits, bits);
    var from := src;
    if shift >= BN_BITS {
      status := ShiftDigL(dest, src, digits);
      if status != Ok {
        return;
      }
      from := dest;
    }
    ghost var w := from.Abs();
    assert w == ShlLimbs(v, digits);
    ShiftByNothing(w, bits);
    if bits != 0 && from.used > 0 {
      ShiftFewBitsL(dest, from, bits);
    }
  }

  /** The bit loop of the right shift, from the top limb down; `p` is 2^shift and `q` its complement. */
  method ShiftLoopR(dest: array<uint32>, src: array<uint32>, used: nat, p: uint32, q: uint32)
    requires used <= dest.Length == src.Length
    requires p > 0 && q > 0 && p * q == BASE
    requires Proper(src[..], used)
    modifies dest
    ensures Proper(dest[..], used)
    ensures forall k :: 0 <= k < used ==> dest[k] == ShiftedDigit(old(src[..]), used, k, p, q)
    ensures forall k :: used <= k < dest.Length ==> dest[k] == old(dest[k])
  {
    ghost var S := src[..];
    var carry: uint32 := 0;
    var i := used - 1;
    while i >= 0
      invariant -1 <= i < used
      invariant carry == Spill(S, used, i + 1, p, q)
      invariant forall k :: 0 <= k <= i ==> src[k] == S[k]
      invariant forall k :: used <= k < dest.Length ==> dest[k] == old(dest[k])
      invariant forall k :: i < k < used ==> dest[k] == ShiftedDigit(S, used, k, p, q) && dest[k] < BASE
    {
      var temp: uint32 := src[i];
      ShiftSplit(temp, q, p);
      SpillBound(S, used, i + 1, p, q);
      dest[i] := temp / p + carry;
      carry := temp % p * q;
      i := i - 1;
    }
  }

  /** The bits that limb `k` hands down to its lower neighbour. */
  function Spill(s: seq<uint32>, used: nat, k: nat, p: uint32, q: uint32): int
    requires used <= |s| && p > 0
  {
    if k < used then s[k] % p * q else 0
  }

  function ShiftedDigit(s: seq<uint32>, used: nat, k: nat, p: uint32, q: uint32): int
    requires k < used <= |s| && p > 0
  {
    s[k] / p + Spill(s, used, k + 1, p, q)
  }

  lemma SpillBound(s: seq<uint32>, used: nat, k: nat, p: uint32, q: uint32)
    requires used <= |s| && Proper(s, used) && p > 0 && q > 0 && p * q == BASE
    ensures 0 <= Spill(s, used, k, p, q) <= BASE - q
  {
    if k < used {
      ShiftSplit(s[k], q, p);
    }
  }

  /** The shifted digits denote the quotient; the remainder is in the lowest limb. */
  lemma {:induction false} ValShiftedRight(s: seq<uint32>, t: seq<uint32>, used: nat, n: nat, p: uint32, q: uint32)
    requires n <= used <= |s| && used <= |t| && p > 0 && q > 0 && p * q == BASE && used > 0
    requires forall k :: 0 <= k < used ==> t[k] == ShiftedDigit(s, used, k, p, q)
    ensures p * Val(t, n) + s[0] % p == Val(s, n) + (if n < used then s[n] % p else 0) * Pow(n)
  {
    if n > 0 {
      ValShiftedRight(s, t, used, n - 1, p, q);
      var c := if n < used then s[n] % p else 0;
      assert t[n - 1] == s[n - 1] / p + c * q;
      ShiftDigitR(p, q, s[n - 1], c, Pow(n - 1));
      DistributeLeft(p, Val(t, n - 1), t[n - 1] * Pow(n - 1));
    }
  }

  lemma DistributeLeft(p: int, a: int, b: int)
    ensures p * (a + b) == p * a + p * b
  {
  }

  lemma ShiftDigitR(p: int, q: int, a: int, c: int, w: int)
    requires p > 0 && p * q == BASE
    ensures p * ((a / p + c * q) * w) == a * w - (a % p) * w + c * (BASE * w)
  {
    var h, l := a / p, a % p;
    assert a == p * h + l;
    assert p * ((h + c * q) * w) == (p * h) * w + c * ((p * q) * w);
    assert a * w == (p * h) * w + l * w;
  }

  lemma ValShiftedRightAll(s: seq<uint32>, t: seq<uint32>, used: nat, p: uint32, q: uint32)
    requires 0 < used <= |s| && used <= |t| && p > 0 && q > 0 && p * q == BASE
    requires forall k :: 0 <= k < used ==> t[k] == ShiftedDigit(s, used, k, p, q)
    ensures Val(t, used) == Val(s, used) / p
  {
    ValShiftedRight(s, t, used, used, p, q);
    var v, r := Val(t, used), s[0] % p;
    assert 0 * Pow(used) == 0;
    assert p * v == v * p;
    DivModUnique(Val(s, used), p, v, r);
  }

  /** The part of the right shift below one limb: dest = src / 2^shift. */
  method ShiftFewBitsR(dest: KcBignum, src: KcBignum, shift: nat)
    requires dest.Valid() && src.Valid() && Apart(dest, src)
    requires 0 < shift < BN_BITS && src.used > 0
    modifies dest, dest.data
    ensures dest.Valid()
    ensures dest.Abs() == old(src.Abs()) / Pow2(shift)
    ensures dest.sign == old(src.sign)
  {
    PowersForShift(shift);
    ghost var S := src.limbs;
    var used, sign := src.used, src.sign;
    ShiftLoopR(dest.data, src.data, used, Pow2(shift), Pow2(BN_BITS - shift));
    dest.limbs := dest.data[..];
    dest.used, dest.sign := used, sign;
    ValShiftedRightAll(S, dest.limbs, used, Pow2(shift), Pow2(BN_BITS - shift));
    if dest.data[used - 1] == 0 {
      dest.used := dest.used - 1;
    }
  }

  /** dest = src / 2^shift. */
  method ShiftBitsR(dest: KcBignum, src: KcBignum, shift: nat)
    requires dest.Valid() && src.Valid() && Apart(dest, src)
    modifies dest, dest.data
    ensures dest.Valid()
    ensures dest.Abs() == old(src.Abs()) / Pow2(shift)
    ensures old(src.sign) == 0 ==> dest.sign == 0
  {
    ghost var v := src.Abs();
    ShiftByNothing(v, shift);
    if shift == 0 || src.used == 0 {
      if src != dest {
        Copy(dest, src);
      }
      return;
    }
    var digits, bits := shift / BN_BITS, shift % BN_BITS;
    ShiftParts(v, digits, bits);
    var from := src;
    if shift >= BN_BITS {
      ShiftDigR(dest, src, digits);
      from := dest;
    }
    ghost var w := from.Abs();
    assert w == v / Pow(digits);
    ShiftByNothing(w, bits);
    if bits != 0 && from.used > 0 {
      ShiftFewBitsR(dest, from, bits);
    }
  }

  lemma DivTwice(v: int, a: int, b: int)
    requires v >= 0 && a > 0 && b > 0
    ensures a * b > 0
    ensures v / (a * b) == (v / a) / b
  {
    MulLe(1, a, b);
    var q, r := v / a, v % a;
    var h, l := q / b, q % b;
    assert v == (h * b + l) * a + r == h * (a * b) + (l * a + r) by {
      assert (h * b + l) * a == h * (a * b) + l * a;
    }
    MulLe(l, b - 1, a);
    MulLe(0, l, a);
    assert (b - 1) * a == a * b - a;
    DivModUnique(v, a * b, h, l * a + r);
  }
}
