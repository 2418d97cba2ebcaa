/** Powers of two, reduction modulo a power of two, and bit counting. */
module BnBits {
  import opened Word
  import opened Limbs
  import opened BigNum

  /** bn = 2^pwr. */
  method Set2Pwr(bn: KcBignum, pwr: nat) returns (status: Status)
    requires bn.Valid()
    modifies bn, bn.data
    ensures bn.Valid()
    ensures status == if pwr / 28 < 80 then Ok else BufferOverflow
    ensures status == Ok ==> Holds(bn, Pow2(pwr)) && bn.used == pwr / BN_BITS + 1
    ensures status == Ok ==> forall k :: bn.used <= k < MAX_BN_ELEMENTS ==> bn.limbs[k] == old(bn.limbs)[k]
    ensures status != Ok ==> bn.used == old(bn.used) && bn.sign == old(bn.sign) && bn.limbs == old(bn.limbs)
  {
    if pwr / BN_BITS >= MAX_BN_ELEMENTS {
      return BufferOverflow;
    }
    var top, bits := pwr / BN_BITS, pwr % BN_BITS;
    for i := 0 to top
      invariant forall k :: 0 <= k < i ==> bn.data[k] == 0
      invariant forall k :: i <= k < MAX_BN_ELEMENTS ==> bn.data[k] == old(bn.data[k])
    {
      bn.data[i] := 0;
    }
    Pow2Base();
    Pow2Mono(bits, BN_BITS);
    bn.data[top] := Pow2(bits);
    bn.used, bn.sign := top + 1, 0;
    bn.limbs := bn.data[..];
    OneBit(bn.limbs, top, bits);
    return Ok;
  }

  lemma OneBit(s: seq<uint32>, top: nat, bits: nat)
    requires top < |s| && ZeroFrom(s, 0, top) && s[top] == Pow2(bits)
    ensures Val(s, top + 1) == Pow2(BN_BITS * top + bits)
  {
    ValZeroTail(s, 0, top);
    Pow2Limbs(top, bits);
  }

  /** z = x mod 2^exp. */
  method Mod2Pwr(z: KcBignum, x: KcBignum, exp: nat)
    requires z.Valid() && x.Valid() && x.Trimmed() && Apart(z, x)
    modifies z, z.data
    ensures z.Valid() && z.Trimmed()
    ensures z.Abs() == old(x.Abs()) % Pow2(exp)
    ensures old(x.sign) == 0 ==> z.sign == 0
  {
    ghost var X, used := x.limbs, x.used;
    if exp == 0 {
      DivModUnique(Val(X, used), 1, Val(X, used), 0);
      Zero(z);
      return;
    }
    Copy(z, x);
    if exp >= z.used * BN_BITS {
      AlreadyReduced(X, used, exp);
      return;
    }
    var k, bits := exp / BN_BITS, exp % BN_BITS;
    ClearAbove(z, k, bits);
    Trim(z);
  }

  /** Keeps `k` limbs and the `bits` low bits of the next one. */
  method ClearAbove(z: KcBignum, k: nat, bits: nat)
    requires z.Valid() && k < z.used && bits < BN_BITS
    modifies z`used, z`limbs, z.data
    ensures z.Valid() && z.used == k + 1
    ensures z.Abs() == old(z.Abs()) % Pow2(BN_BITS * k + bits)
  {
    ghost var Z, used := z.limbs, z.used;
    ModLe(z.data[k], Pow2(bits));
    z.data[k] := z.data[k] % Pow2(bits);
    z.limbs := z.data[..];
    z.used := k + 1;
    ReducedValue(Z, z.limbs, used, k, bits);
  }

  lemma ModLe(a: int, m: int)
    requires a >= 0 && m > 0
    ensures 0 <= a % m <= a
  {
    assert a == (a / m) * m + a % m;
    if a < m {
      DivModUnique(a, m, 0, a);
    }
  }

  lemma AlreadyReduced(s: seq<uint32>, used: nat, exp: nat)
    requires used <= |s| && Proper(s, used) && exp >= used * BN_BITS
    ensures Val(s, used) % Pow2(exp) == Val(s, used)
  {
    ValBound(s, used);
    Pow2Limbs(used, 0);
    Pow2Mono(used * BN_BITS, exp);
    DivModUnique(Val(s, used), Pow2(exp), 0, Val(s, used));
  }

  /** Keeping `k` limbs and `bits` bits of the next one is the remainder modulo 2^(28k + bits). */
  lemma ReducedValue(s: seq<uint32>, t: seq<uint32>, used: nat, k: nat, bits: nat)
    requires k < used <= |s| == |t| && Proper(s, used) && bits < BN_BITS
    requires forall j :: 0 <= j < k ==> t[j] == s[j]
    requires t[k] == s[k] % Pow2(bits)
    ensures Val(t, k + 1) == Val(s, used) % Pow2(BN_BITS * k + bits)
  {
    var m, w := Pow2(bits), Pow(k);
    var high := Val(s[k + 1..], used - k - 1);
    assert Val(s, used) == Val(s, k) + s[k] * w + BASE * w * high by {
      ValSplit(s, k + 1, used);
    }
    assert Val(s, k) < w by { ValBound(s, k); }
    assert Pow2(BN_BITS * k + bits) == w * m by { Pow2Limbs(k, bits); }
    assert m * Pow2(BN_BITS - bits) == BASE by {
      Pow2Base();
      Pow2Add(bits, BN_BITS - bits);
    }
    RemainderSplit(Val(s, k), w, s[k], m, Pow2(BN_BITS - bits), high);
    assert Val(t, k + 1) == Val(s, k) + t[k] * w by { ValCong(s, t, k); }
  }

  lemma RemainderSplit(low: int, w: int, a: int, m: int, c: int, high: int)
    requires 0 <= low < w && m > 0 && m * c == BASE
    ensures w * m > 0
    ensures (low + a * w + BASE * w * high) % (w * m) == low + a % m * w
  {
    var q, l := a / m, a % m;
    assert a * w == q * (w * m) + l * w by {
      assert (m * q + l) * w == q * (w * m) + l * w;
    }
    assert BASE * w * high == (c * high) * (w * m) by {
      assert (m * c) * w * high == (c * high) * (w * m);
    }
    assert 0 <= l * w <= w * m - w by {
      MulLe(0, l, w);
      MulLe(l, m - 1, w);
      assert (m - 1) * w == w * m - w;
    }
    MulLe(1, m, w);
    DistributeSum(q, c * high, w * m);
    DivModUnique(low + a * w + BASE * w * high, w * m, q + c * high, low + l * w);
  }

  /** The number of bits of one limb. */
  function BitsOf(limb: nat): (bits: nat)
    ensures limb < Pow2(bits) && (limb > 0 ==> bits > 0 && Pow2(bits - 1) <= limb)
  {
    if limb == 0 then 0 else 1 + BitsOf(limb / 2)
  }

  /** The number of bits of a canonical number. */
  method BitCount(bn: KcBignum) returns (count: nat)
    requires bn.Valid()
    ensures bn.used == 0 ==> count == 0
    ensures bn.used > 0 && bn.Trimmed() ==>
              && (bn.used - 1) * BN_BITS < count <= bn.used * BN_BITS
              && Pow2(count - 1) <= bn.Abs() < Pow2(count)
    ensures bn.used > 0 ==> count == (bn.used - 1) * BN_BITS + BitsOf(bn.limbs[bn.used - 1])
  {
    if bn.used == 0 {
      return 0;
    }
    count := (bn.used - 1) * BN_BITS;
    var last: uint32 := bn.data[bn.used - 1];
    ghost var top, bits := last, 0;
    while last > 0
      invariant count == (bn.used - 1) * BN_BITS + bits && bits + BitsOf(last) == BitsOf(top)
    {
      last := last / 2;
      count := count + 1;
      bits := bits + 1;
    }
    if top != 0 {
      BitsOfTop(bn.limbs, bn.used, bits);
    }
  }

  lemma BitsOfTop(s: seq<uint32>, n: nat, bits: nat)
    requires 0 < n <= |s| && Proper(s, n) && bits > 0
    requires Pow2(bits - 1) <= s[n - 1] < Pow2(bits)
    ensures bits <= BN_BITS
    ensures Pow2((n - 1) * BN_BITS + bits - 1) <= Val(s, n) < Pow2((n - 1) * BN_BITS + bits)
  {
    var w, lo, hi := Pow(n - 1), Pow2(bits - 1), Pow2(bits);
    assert bits <= BN_BITS by {
      Pow2Base();
      if bits > BN_BITS {
        Pow2Mono(BN_BITS, bits - 1);
      }
    }
    assert Pow2(BN_BITS * (n - 1) + bits) == w * hi by { Pow2Limbs(n - 1, bits); }
    assert Pow2(BN_BITS * (n - 1) + (bits - 1)) == w * lo by { Pow2Limbs(n - 1, bits - 1); }
    assert Val(s, n - 1) < w by { ValBound(s, n - 1); }
    ScaleBetween(lo, s[n - 1], hi, w);
  }

  lemma ScaleBetween(lo: int, a: int, hi: int, w: int)
    requires w >= 0 && lo <= a < hi
    ensures w * lo <= a * w && a * w + w <= w * hi
  {
    MulLe(lo, a, w);
    MulLe(a + 1, hi, w);
    DistributeSum(a, 1, w);
  }
}
