/** Sign-magnitude big numbers: the structure, its housekeeping and the two comparisons. */
module BigNum {
  import opened Word
  import opened Limbs

  datatype Status =
    | Ok
    | BufferOverflow
    | InvalidParameter
    | NullPtr
    | TooSmall
    | BadBignumber
    | InvalidSize
    | DataLength
    | StoreOverflow

  const BN_BIGGER: uint32 := 1
  const BN_SMALLER: uint32 := 2
  const BN_EQUAL: uint32 := 3

  class KcBignum {
    var used: nat
    var sign: nat
    const data: array<uint32>
    /** Mirror of the contents of `data`, kept by every method. */
    ghost var limbs: seq<uint32>

    /** The mirror is up to date. */
    ghost predicate Synced()
      reads this, data
    {
      && data.Length == MAX_BN_ELEMENTS == |limbs|
      && limbs == data[..]
    }

    ghost predicate Valid()
      reads this, data
    {
      && Synced()
      && used <= MAX_BN_ELEMENTS
      && sign <= 1
      && Proper(limbs, used)
    }

    constructor ()
      ensures Valid() && fresh(data)
      ensures used == 0 && sign == 0 && ZeroFrom(limbs, 0, MAX_BN_ELEMENTS)
    {
      used, sign := 0, 0;
      data := new uint32[MAX_BN_ELEMENTS](_ => 0);
      limbs := seq(MAX_BN_ELEMENTS, _ => 0);
    }

    /** The magnitude. */
    ghost function Abs(): (v: int)
      requires used <= |limbs|
      reads this
      ensures v >= 0
    {
      Val(limbs, used)
    }

    ghost function Value(): int
      requires used <= |limbs|
      reads this
    {
      Signed(sign, Abs())
    }

    /** The top limb in use is not zero. */
    ghost predicate Trimmed()
      requires used <= |limbs|
      reads this
    {
      used > 0 ==> limbs[used - 1] != 0
    }

    /** No stale limbs are left above `used`. */
    ghost predicate Clean()
      requires |limbs| == MAX_BN_ELEMENTS
      reads this
    {
      ZeroFrom(limbs, used, MAX_BN_ELEMENTS)
    }
  }

  function Signed(sign: nat, magnitude: int): int {
    if sign == 1 then -magnitude else magnitude
  }

  /** Distinct structures embed distinct limb buffers. */
  ghost predicate Apart(x: KcBignum, y: KcBignum) {
    x != y ==> x.data != y.data
  }

  /** The structure denotes `v` in canonical form. */
  ghost predicate Holds(x: KcBignum, v: int)
    reads x, x.data
  {
    x.Valid() && x.sign == 0 && x.Trimmed() && x.Abs() == v
  }

  method Trim(z: KcBignum)
    requires z.Valid()
    modifies z`used
    ensures z.Valid() && z.Trimmed()
    ensures z.Abs() == old(z.Abs()) && z.used <= old(z.used)
    ensures ZeroFrom(z.limbs, z.used, old(z.used))
  {
    while z.used != 0 && z.data[z.used - 1] == 0
      invariant z.used <= old(z.used)
      invariant z.Valid()
      invariant ZeroFrom(z.limbs, z.used, old(z.used))
      invariant z.Abs() == old(z.Abs())
    {
      z.used := z.used - 1;
    }
  }

  /** Writes one limb. */
  method Put(z: KcBignum, i: nat, v: uint32)
    requires z.Synced() && i < MAX_BN_ELEMENTS
    modifies z`limbs, z.data
    ensures z.Synced() && z.limbs == old(z.limbs)[i := v]
  {
    z.data[i] := v;
    z.limbs := z.limbs[i := v];
  }

  method Zero(z: KcBignum)
    requires z.Valid()
    modifies z`used, z`sign
    ensures z.Valid() && z.Trimmed() && z.used == 0 && z.sign == 0
  {
    z.used, z.sign := 0, 0;
  }

  method Copy(dest: KcBignum, src: KcBignum)
    requires dest.Valid() && src.Valid() && Apart(dest, src)
    modifies dest, dest.data
    ensures dest.Valid() && src.Valid()
    ensures dest.used == old(src.used) && dest.sign == old(src.sign) && dest.limbs == old(src.limbs)
  {
    if dest != src {
      forall i | 0 <= i < MAX_BN_ELEMENTS {
        dest.data[i] := src.data[i];
      }
      dest.used, dest.sign := src.used, src.sign;
      dest.limbs := src.limbs;
      assert dest.data[..] == src.data[..];
    }
  }

  /** What the comparison of two magnitudes is expected to answer. */
  function Order(a: int, b: int): uint32 {
    if a > b then BN_BIGGER else if a < b then BN_SMALLER else BN_EQUAL
  }

  /** A longer canonical numeral is a bigger number. */
  lemma LongerIsBigger(s: seq<uint32>, m: nat, t: seq<uint32>, n: nat)
    requires m < n && m <= |s| && n <= |t|
    requires Proper(s, m)
    requires t[n - 1] != 0
    ensures Val(s, m) < Val(t, n)
  {
    ValBound(s, m);
    PowMono(m, n - 1);
    ValLower(t, n - 1, n);
    MulLe(1, t[n - 1], Pow(n - 1));
  }

  /** The fast comparison looks at lengths first. On canonical operands it is the numeric order,
      except that two zeros compare as BIGGER. */
  method Compare(x: KcBignum, y: KcBignum) returns (c: uint32)
    requires x.Valid() && y.Valid()
    ensures x.used != y.used ==> c == if x.used > y.used then BN_BIGGER else BN_SMALLER
    ensures x.used == y.used == 0 ==> c == BN_BIGGER
    ensures x.used == y.used != 0 ==> c == Order(x.Abs(), y.Abs())
    ensures x.Trimmed() && y.Trimmed() && (x.used != 0 || y.used != 0) ==> c == Order(x.Abs(), y.Abs())
  {
    if x.used > y.used {
      if x.Trimmed() {
        LongerIsBigger(y.limbs, y.used, x.limbs, x.used);
      }
      return BN_BIGGER;
    }
    if x.used < y.used {
      if y.Trimmed() {
        LongerIsBigger(x.limbs, x.used, y.limbs, y.used);
      }
      return BN_SMALLER;
    }
    if y.used == 0 {
      return BN_BIGGER;
    }
    var i: int := x.used - 1;
    while i >= 0
      invariant -1 <= i < x.used
      invariant forall j :: i < j < x.used ==> x.limbs[j] == y.limbs[j]
    {
      if x.data[i] > y.data[i] {
        ValOrder(y.limbs, x.limbs, i, x.used);
        return BN_BIGGER;
      }
      if x.data[i] < y.data[i] {
        ValOrder(x.limbs, y.limbs, i, x.used);
        return BN_SMALLER;
      }
      i := i - 1;
    }
    ValCong(x.limbs, y.limbs, x.used);
    return BN_EQUAL;
  }

  /** `(b - a) >> 31` in 32-bit arithmetic. */
  function BorrowBit(b: int, a: int): uint32 {
    Wrap32(b - a) / 0x8000_0000
  }

  function And(a: uint32, b: uint32): uint32
    requires a <= 1 && b <= 1
  {
    if a == 1 && b == 1 then 1 else 0
  }

  function Or(a: uint32, b: uint32): uint32
    requires a <= 1 && b <= 1
  {
    if a == 1 || b == 1 then 1 else 0
  }

  /** On 28-bit digits the borrow bit means "greater" and the borrow of the difference pattern means
      "equal". */
  lemma SecureStep(a: int, b: int)
    requires 0 <= a < BASE && 0 <= b < BASE
    ensures BorrowBit(b, a) == if a > b then 1 else 0
    ensures BorrowBit(Xor(b, a), 1) == if a == b then 1 else 0
  {
    BorrowIsLess(b, a);
    BorrowIsLess(Xor(b, a), 1);
  }

  lemma BorrowIsLess(b: int, a: int)
    requires 0 <= a < 0x8000_0000 && 0 <= b < 0x8000_0000
    ensures BorrowBit(b, a) == if b < a then 1 else 0
  {
    if b < a {
      DivModUnique(b - a, 0x1_0000_0000, -1, b - a + 0x1_0000_0000);
    }
  }

  /** The first difference from the top decides the order of the whole numerals. */
  lemma SecureDecide(s: seq<uint32>, t: seq<uint32>, i: nat, equalAbove: bool)
    requires i < MAX_BN_ELEMENTS == |s| == |t|
    requires Proper(s, MAX_BN_ELEMENTS) && Proper(t, MAX_BN_ELEMENTS)
    requires equalAbove ==> forall j :: i < j < MAX_BN_ELEMENTS ==> s[j] == t[j]
    ensures BorrowBit(t[i], s[i]) == if s[i] > t[i] then 1 else 0
    ensures BorrowBit(Xor(t[i], s[i]), 1) == if s[i] == t[i] then 1 else 0
    ensures equalAbove && s[i] > t[i] ==> Val(s, MAX_BN_ELEMENTS) > Val(t, MAX_BN_ELEMENTS)
    ensures equalAbove && s[i] < t[i] ==> Val(s, MAX_BN_ELEMENTS) < Val(t, MAX_BN_ELEMENTS)
  {
    SecureStep(s[i], t[i]);
    if equalAbove && s[i] > t[i] {
      ValOrder(t, s, i, MAX_BN_ELEMENTS);
    }
    if equalAbove && s[i] < t[i] {
      ValOrder(s, t, i, MAX_BN_ELEMENTS);
    }
  }

  /** The comparison without branches reads all limbs of both buffers. */
  method SecureCompare(x: KcBignum, y: KcBignum) returns (c: uint32)
    requires x.Valid() && y.Valid()
    requires Proper(x.limbs, MAX_BN_ELEMENTS) && Proper(y.limbs, MAX_BN_ELEMENTS)
    ensures c == Order(Val(x.limbs, MAX_BN_ELEMENTS), Val(y.limbs, MAX_BN_ELEMENTS))
    ensures x.Clean() && y.Clean() ==> c == Order(x.Abs(), y.Abs())
  {
    ghost var X, Y := x.limbs, y.limbs;
    ghost var vx, vy := Val(X, MAX_BN_ELEMENTS), Val(Y, MAX_BN_ELEMENTS);
    var i: nat := MAX_BN_ELEMENTS;
    var gt: uint32 := 0;
    var eq: uint32 := 1;
    while i != 0
      invariant i <= MAX_BN_ELEMENTS
      invariant eq <= 1 && gt <= 1 && gt + eq <= 1
      invariant eq == 1 ==> forall j :: i <= j < MAX_BN_ELEMENTS ==> X[j] == Y[j]
      invariant gt == 1 ==> vx > vy
      invariant gt == 0 && eq == 0 ==> vx < vy
    {
      i := i - 1;
      var a, b := x.data[i], y.data[i];
      SecureDecide(X, Y, i, eq == 1);
      gt := Or(gt, And(BorrowBit(b, a), eq));
      eq := And(eq, BorrowBit(Xor(b, a), 1));
    }
    c := Wrap32(2 + (eq - gt));
    if eq == 1 {
      ValCong(X, Y, MAX_BN_ELEMENTS);
    }
    CleanValue(x);
    CleanValue(y);
  }

  lemma CleanValue(x: KcBignum)
    requires x.Valid()
    ensures x.Clean() ==> Val(x.limbs, MAX_BN_ELEMENTS) == x.Abs()
  {
    if x.Clean() {
      ValZeroTail(x.limbs, x.used, MAX_BN_ELEMENTS);
    }
  }
}
