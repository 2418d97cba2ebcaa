/** ECC scalars: little-endian arrays of 72 octets, with subtraction and two ways to reduce. */
module Ecc {
  import opened Word
  import opened Limbs
  import opened BigNum
  import opened Octets
  import opened OctetXor
  import opened BnOctets
  import opened LimbDigits
  import opened BnDivide
  import opened BnBarrett
  import opened BnCorrection
  import opened BarrettMath
  import opened BarrettResults

  const ECC_SCALAR_SIZE_BYTES: nat := 72

  datatype EccStatus = Success | InvalidParams | Unknown

  /** `x >> 8` of a small signed number, cut to its lowest bit. */
  function SignBit(x: int): (b: uint32)
    requires -256 <= x < 256
    ensures b == if x < 0 then 1 else 0
  {
    x / 256 % 2
  }

  /** The most significant difference decides the order. */
  lemma {:induction false} OctetOrder(s: seq<uint8>, t: seq<uint8>, i: nat, n: nat)
    requires i < n && n <= |s| && n <= |t| && s[i] < t[i]
    requires forall j :: i < j < n ==> s[j] == t[j]
    ensures OctetVal(s, n) < OctetVal(t, n)
    decreases n
  {
    if i + 1 < n {
      OctetOrder(s, t, i, n - 1);
      assert s[n - 1] == t[n - 1];
    } else {
      var p := Pow256(i);
      OctetBound(s, i);
      MulLe(s[i] as int + 1, t[i], p);
      DistributeSum(s[i], 1, p);
    }
  }

  /** Compares two octet strings without branching on them: 0 for equal, 1 for greater, 2 for less. */
  method ArrayCompareLe(left: array<uint8>, right: array<uint8>) returns (c: int)
    requires left.Length == right.Length
    ensures c == if OctetVal(left[..], left.Length) == OctetVal(right[..], left.Length) then 0
                 else if OctetVal(left[..], left.Length) > OctetVal(right[..], left.Length) then 1 else 2
  {
    var gt: uint32, eq: uint32 := 0, 1;
    ghost var l, r, n := left[..], right[..], left.Length;
    var i := left.Length;
    while i != 0
      invariant 0 <= i <= n && gt <= 1 && eq <= 1
      invariant eq == 1 ==> gt == 0 && forall j :: i <= j < n ==> l[j] == r[j]
      invariant eq == 0 && gt == 1 ==> OctetVal(l, n) > OctetVal(r, n)
      invariant eq == 0 && gt == 0 ==> OctetVal(l, n) < OctetVal(r, n)
    {
      i := i - 1;
      if eq == 1 {
        if l[i] > r[i] {
          OctetOrder(r, l, i, n);
        } else if l[i] < r[i] {
          OctetOrder(l, r, i, n);
        }
      }
      XorBound(right[i], left[i]);
      gt := Or(gt, And(SignBit(right[i] as int - left[i] as int), eq));
      eq := And(eq, SignBit(Xor(right[i], left[i]) - 1));
    }
    if eq == 1 {
      OctetCong(l, r, n);
    }
    return 2 - (gt as int + eq as int + eq as int);
  }

  method IsGreater(a: array<uint8>, b: array<uint8>) returns (greater: bool)
    requires a.Length == b.Length
    ensures greater <==> OctetVal(a[..], a.Length) > OctetVal(b[..], a.Length)
  {
    var compare := ArrayCompareLe(a, b);
    return compare == 1;
  }

  /** One octet of the subtraction, in 8-bit arithmetic. */
  method MinusOctet(a: uint8, b: uint8, borrow: uint8) returns (digit: uint8, next: uint8)
    requires borrow <= 1
    ensures next <= 1 && digit as int == a as int - b as int - borrow as int + 256 * next as int
  {
    var left: uint8 := (a as int - borrow as int) % 256;
    digit := (left as int - b as int) % 256;
    if left > a {
      next := 1;
    } else {
      next := 0;
      if digit > left {
        next := 1;
      }
    }
  }

  /** rop = op1 - op2, exactly, whichever of the operands the result overwrites. */
  method ScalarMinus(rop: array<uint8>, op1: array<uint8>, op2: array<uint8>) returns (status: EccStatus)
    requires rop.Length == op1.Length == op2.Length
    modifies rop
    ensures status ==
      if old(OctetVal(op2[..], op2.Length) > OctetVal(op1[..], op1.Length)) then InvalidParams else Success
    ensures status != Success ==> rop[..] == old(rop[..])
    ensures status == Success ==>
      OctetVal(rop[..], rop.Length) == old(OctetVal(op1[..], op1.Length) - OctetVal(op2[..], op2.Length))
  {
    var greater := IsGreater(op2, op1);
    if greater {
      return InvalidParams;
    }
    MinusOctets(rop, op1, op2);
    return Success;
  }

  method MinusOctets(rop: array<uint8>, op1: array<uint8>, op2: array<uint8>)
    requires rop.Length == op1.Length == op2.Length
    requires OctetVal(op2[..], op2.Length) <= OctetVal(op1[..], op1.Length)
    modifies rop
    ensures OctetVal(rop[..], rop.Length) == old(OctetVal(op1[..], op1.Length) - OctetVal(op2[..], op2.Length))
  {
    ghost var a, b, n := op1[..], op2[..], rop.Length;
    var borrow: uint8, index := 0, 0;
    while index < rop.Length
      invariant index <= n && borrow <= 1
      invariant forall k :: index <= k < n ==> op1[k] == a[k] && op2[k] == b[k]
      invariant OctetVal(rop[..], index) == OctetVal(a, index) - OctetVal(b, index) + borrow * Pow256(index)
    {
      ghost var before, taken, v, p := rop[..], borrow, OctetVal(rop[..], index), Pow256(index);
      var digit;
      digit, borrow := MinusOctet(op1[index], op2[index], borrow);
      rop[index] := digit;
      OctetCong(rop[..], before, index);
      BorrowStep(a[index], b[index], taken, digit, borrow, p);
      index := index + 1;
    }
    OctetBound(rop[..], n);
    if borrow == 1 {
      assert false;
    }
  }

  lemma BorrowStep(a: int, b: int, taken: int, digit: int, next: int, p: int)
    requires digit == a - b - taken + 256 * next
    ensures digit * p == a * p - b * p - taken * p + next * (256 * p)
  {
  }

  /** rop = op1 mod modulus by repeated subtraction, which ends for every modulus but zero. */
  method ScalarMod(rop: array<uint8>, op1: array<uint8>, modulus: array<uint8>) returns (status: EccStatus)
    requires rop.Length == op1.Length == modulus.Length == ECC_SCALAR_SIZE_BYTES
    requires OctetVal(modulus[..], modulus.Length) > 0
    modifies rop
    ensures status == Success
    ensures OctetVal(rop[..], rop.Length) == old(OctetVal(op1[..], op1.Length) % OctetVal(modulus[..], modulus.Length))
  {
    var op := new uint8[ECC_SCALAR_SIZE_BYTES](i requires 0 <= i < ECC_SCALAR_SIZE_BYTES reads op1 => op1[i]);
    assert op[..] == op1[..];
    status := SubtractWhileNotLess(rop, op, modulus);
  }

  method SubtractWhileNotLess(rop: array<uint8>, op: array<uint8>, modulus: array<uint8>) returns (status: EccStatus)
    requires rop.Length == op.Length == modulus.Length && op != rop && op != modulus
    requires OctetVal(modulus[..], modulus.Length) > 0
    modifies rop, op
    ensures status == Success
    ensures OctetVal(rop[..], rop.Length) == old(OctetVal(op[..], op.Length) % OctetVal(modulus[..], modulus.Length))
  {
    ghost var m, x, q := OctetVal(modulus[..], modulus.Length), OctetVal(op[..], op.Length), 0;
    status := Success;
    while true
      invariant status == Success && unchanged(rop) && modulus[..] == old(modulus[..])
      invariant x == q * m + OctetVal(op[..], op.Length)
      decreases OctetVal(op[..], op.Length)
    {
      ghost var s, v := op[..], OctetVal(op[..], op.Length);
      var greater := IsGreater(modulus, op);
      if greater {
        forall i | 0 <= i < op.Length {
          rop[i] := op[i];
        }
        OctetCong(rop[..], s, op.Length);
        DivModUnique(x, m, q, v);
        return;
      }
      status := ScalarMinus(op, op, modulus);
      if status != Success {
        assert false;
        return;
      }
      DistributeSum(q, 1, m);
      q := q + 1;
    }
  }

  /** The number of limbs a string of whole words fills. */
  lemma LimbsOfOctets(s: seq<uint8>, w: nat, i: nat)
    requires |s| == 4 * w && w == Advance(i)
    ensures LimbCount(OctetVal(s, |s|)) <= i + 1
  {
    var v, n := OctetVal(s, |s|), LimbCount(OctetVal(s, |s|));
    OctetBound(s, |s|);
    PowWordOctets(w);
    RoundsBelow(i);
    if n > i + 1 {
      CountBounds(v);
      PowMono(i + 1, n - 1);
    }
  }

  lemma ScalarBound(s: seq<uint8>)
    requires |s| == ECC_SCALAR_SIZE_BYTES
    ensures LimbCount(OctetVal(s, |s|)) <= 21 && OctetVal(s, |s|) < PowWord(18)
  {
    LimbsOfOctets(s, 18, 20);
    OctetBound(s, |s|);
    PowWordOctets(18);
  }

  /** When the fast reduction succeeds: it has no way to deliver zero; and for a modulus that is a power of B, for which
      the reciprocal is cut to zero, the correction alone has to do the work, in at most eleven rounds. */
  predicate ReduceSucceeds(x: nat, m: nat) {
    m > 0 && LimbCount(x) <= 2 * LimbCount(m) && NonZeroResidue(x, m, LimbCount(m))
  }

  /** The same, for operands of fitting lengths and a modulus of `k` limbs. */
  predicate NonZeroResidue(x: nat, m: nat, k: nat)
    requires m > 0 && k > 0
  {
    x % m != 0 && (m == Pow(k - 1) ==> x % Pow(k + 1) / m <= 11)
  }

  /** rop = op1 mod modulus by Barrett reduction. The octets that are written denote the residue, cut to the
      words that storing emits; the others keep their old content. */
  method ScalarReduce(rop: array<uint8>, op1: array<uint8>, modulus: array<uint8>) returns (status: EccStatus)
    requires rop.Length == op1.Length == modulus.Length == ECC_SCALAR_SIZE_BYTES
    modifies rop
    ensures status ==
      if ReduceSucceeds(old(OctetVal(op1[..], op1.Length)), old(OctetVal(modulus[..], modulus.Length))) then Success
      else Unknown
    ensures status == Success ==>
      ResidueStored(old(OctetVal(op1[..], op1.Length)) % old(OctetVal(modulus[..], modulus.Length)), old(rop[..]), rop[..])
  {
    var mod := new KcBignum();
    var x := new KcBignum();
    var loaded := Load(mod, modulus[..]);
    if loaded != Ok {
      assert false;
      return InvalidParams;
    }
    loaded := Load(x, op1[..]);
    if loaded != Ok {
      assert false;
      return InvalidParams;
    }
    ScalarBound(modulus[..]);
    status := ReduceLoaded(rop, x, mod, 18);
  }

  /** `after` is `before` with the words of `v` that storing emits. */
  ghost predicate ResidueStored(v: nat, before: seq<uint8>, after: seq<uint8>) {
    && v > 0 && |after| == |before| && 4 * WordsWritten(LimbCount(v)) <= |after|
    && OctetVal(after, 4 * WordsWritten(LimbCount(v))) == v % Pow256(4 * WordsWritten(LimbCount(v)))
    && forall k :: 4 * WordsWritten(LimbCount(v)) <= k < |after| ==> after[k] == before[k]
  }

  method ReduceLoaded(rop: array<uint8>, x: KcBignum, mod: KcBignum, ghost words: nat) returns (status: EccStatus)
    requires rop.Length == 4 * words <= 280 && Separate(x, mod)
    requires x.Valid() && x.sign == 0 && x.Trimmed() && x.Clean()
    requires mod.Valid() && mod.sign == 0 && mod.Trimmed() && mod.Clean()
    requires LimbCount(mod.Abs()) <= 21 && mod.Abs() < PowWord(words)
    modifies rop
    ensures status == if ReduceSucceeds(old(x.Abs()), old(mod.Abs())) then Success else Unknown
    ensures status == Success ==> ResidueStored(old(x.Abs()) % old(mod.Abs()), old(rop[..]), rop[..])
  {
    ghost var X, M, before := x.Abs(), mod.Abs(), rop[..];
    var result := new KcBignum();
    var rc := ReduceNumbers(result, x, mod);
    if rc != Ok {
      return Unknown;
    }
    ResidueRange(X, M, words);
    assert rop[..] == before;
    status := Deliver(result, rop, X % M, words);
  }

  lemma ResidueRange(x: int, m: int, words: nat)
    requires x >= 0 && 0 < m < PowWord(words)
    ensures 0 <= x % m < PowWord(words)
  {
  }

  method Deliver(result: KcBignum, rop: array<uint8>, ghost v: nat, ghost words: nat) returns (status: EccStatus)
    requires rop.Length == 4 * words <= 280 && result.Valid() && result.Abs() == v < PowWord(words)
    modifies result`used, rop
    ensures status == if v > 0 then Success else Unknown
    ensures status == Success ==> ResidueStored(v, old(rop[..]), rop[..])
  {
    if v > 0 {
      RoomForValue(v, words);
    }
    var rc := Store(result, rop);
    if rc != Ok {
      return Unknown;
    }
    return Success;
  }

  /** The modulus made ready for Barrett reduction, in scratch memory of its own. */
  method PrepareModulus(mod: KcBignum) returns (scratch: KcScratch, rc: Status)
    requires mod.Valid() && mod.sign == 0 && mod.Trimmed() && mod.Clean() && mod.used <= 21
    ensures scratch.Valid() && fresh(scratch.memory) && fresh(scratch.div.memory)
    ensures if mod.used == 0 then rc != Ok else rc == Ok && Prepared(scratch.u, mod)
  {
    scratch := new KcScratch();
    rc := BarrettSetup(scratch, mod);
  }

  method ReduceNumbers(result: KcBignum, x: KcBignum, mod: KcBignum) returns (rc: Status)
    requires Separate(x, mod) && Separate(result, x) && Separate(result, mod)
    requires x.Valid() && x.sign == 0 && x.Trimmed() && x.Clean()
    requires mod.Valid() && mod.sign == 0 && mod.Trimmed() && mod.Clean()
    requires LimbCount(mod.Abs()) <= 21
    requires result.Valid() && ZeroFrom(result.limbs, 0, MAX_BN_ELEMENTS)
    modifies result, result.data
    ensures result.Valid()
    ensures rc == Ok ==> mod.Abs() > 0 && result.Abs() == x.Abs() % mod.Abs()
    ensures rc == Ok && x.Abs() % mod.Abs() != 0 ==> ReduceSucceeds(x.Abs(), mod.Abs())
    ensures rc != Ok ==> !ReduceSucceeds(x.Abs(), mod.Abs())
  {
    ghost var X, M := x.Abs(), mod.Abs();
    DigitsUnique(x.limbs, x.used);
    DigitsUnique(mod.limbs, mod.used);
    var scratch;
    scratch, rc := PrepareModulus(mod);
    if rc != Ok {
      return;
    }
    rc := ReducePrepared(scratch, result, x, mod);
  }

  method ReducePrepared(scratch: KcScratch, result: KcBignum, x: KcBignum, mod: KcBignum) returns (rc: Status)
    requires scratch.Valid()
    requires {result, result.data, x, x.data, mod, mod.data} !! scratch.memory + scratch.div.memory
    requires Separate(x, mod) && Separate(result, x) && Separate(result, mod)
    requires x.Valid() && x.sign == 0 && x.Trimmed() && x.Clean() && Prepared(scratch.u, mod)
    requires result.Valid() && ZeroFrom(result.limbs, 0, MAX_BN_ELEMENTS)
    modifies result, result.data, scratch.memory
    ensures result.Valid()
    ensures rc == Ok ==> result.Abs() == x.Abs() % mod.Abs()
    ensures rc == Ok && x.Abs() % mod.Abs() != 0 ==>
      x.used <= 2 * mod.used && NonZeroResidue(x.Abs(), mod.Abs(), mod.used)
    ensures rc != Ok ==> x.used > 2 * mod.used || !NonZeroResidue(x.Abs(), mod.Abs(), mod.used)
  {
    ghost var X, M, k, before := x.Abs(), mod.Abs(), mod.used, result.limbs;
    ghost var count;
    ValBound(x.limbs, x.used);
    ValBound(mod.limbs, k);
    rc, count := BarrettReduce(scratch, result, x, mod);
    if x.used <= 2 * k {
      PowMono(x.used, 2 * k);
      if X >= M {
        Delivered(rc, before, X, M, k, result);
      } else {
        PowMono(k, k + 1);
        SmallOperand(X, M, k);
      }
    }
  }

  /** What a zeroed buffer receives. */
  lemma Delivered(rc: Status, before: seq<uint32>, x: nat, m: nat, k: nat, r: KcBignum)
    requires |before| == MAX_BN_ELEMENTS && Operands(x, m, k) && ZeroFrom(before, 0, MAX_BN_ELEMENTS)
    requires Outcome(rc, x, m, k, before, r)
    ensures r.Valid() && (rc == Ok ==> r.Abs() == x % m)
    ensures rc == Ok && x % m != 0 ==> NonZeroResidue(x, m, k)
    ensures rc != Ok ==> !NonZeroResidue(x, m, k)
  {
    ZeroedResult(before, x, m, k);
    if m == Pow(k - 1) && x % Pow(k + 1) == 0 {
      RestOfPower(x, k);
      DivModUnique(0, m, 0, 0);
    }
  }

  lemma SmallOperand(x: nat, m: nat, k: nat)
    requires x < m < Pow(k + 1)
    ensures x % m == x && x % Pow(k + 1) / m == 0
    ensures k > 0 ==> (NonZeroResidue(x, m, k) <==> x != 0)
  {
    DivModUnique(x, m, 0, x);
    DivModUnique(x, Pow(k + 1), 0, x);
  }

  /** Fast and slow reduction side by side: when the fast one succeeds, the two results are the same octets
      exactly for the residues that storing emits in full. */
  method ReduceBothWays(op1: array<uint8>, modulus: array<uint8>)
    returns (status: EccStatus, fast: array<uint8>, slow: array<uint8>)
    requires op1.Length == modulus.Length == ECC_SCALAR_SIZE_BYTES
    requires OctetVal(modulus[..], modulus.Length) > 0
    ensures slow.Length == fast.Length == op1.Length
    ensures OctetVal(slow[..], slow.Length) == OctetVal(op1[..], op1.Length) % OctetVal(modulus[..], modulus.Length)
    ensures status == Success <==> ReduceSucceeds(OctetVal(op1[..], op1.Length), OctetVal(modulus[..], modulus.Length))
    ensures status == Success ==>
      (fast[..] == slow[..] <==> FullyEmitted(OctetVal(op1[..], op1.Length) % OctetVal(modulus[..], modulus.Length)))
  {
    ghost var x, m := OctetVal(op1[..], op1.Length), OctetVal(modulus[..], modulus.Length);
    fast := new uint8[ECC_SCALAR_SIZE_BYTES](_ => 0);
    slow := new uint8[ECC_SCALAR_SIZE_BYTES](_ => 0);
    ghost var zero, a, b := fast[..], op1[..], modulus[..];
    status := ScalarReduce(fast, op1, modulus);
    assert op1[..] == a && modulus[..] == b;
    var done := ScalarMod(slow, op1, modulus);
    assert op1[..] == a && modulus[..] == b;
    if status == Success {
      SameOctets(x % m, zero, fast[..], slow[..]);
    }
  }

  /** Emitting `v` over zeros gives the octets of `v` exactly when `v` is emitted in full. */
  lemma SameOctets(v: nat, zero: seq<uint8>, fast: seq<uint8>, slow: seq<uint8>)
    requires ResidueStored(v, zero, fast) && |slow| == |zero| && OctetVal(slow, |slow|) == v
    requires forall k :: 0 <= k < |zero| ==> zero[k] == 0
    ensures fast == slow <==> FullyEmitted(v)
  {
    var w := WordsWritten(LimbCount(v));
    PowWordOctets(w);
    OctetZeroTail(fast, 4 * w, |fast|);
    if v < Pow256(4 * w) {
      DivModUnique(v, Pow256(4 * w), 0, v);
      OctetsUnique(fast, slow, |fast|);
      assert fast[..|fast|] == fast && slow[..|slow|] == slow;
    }
  }

  /** A private key from random octets: d = (c mod (n - 1)) + 1, exactly for the residues that storing emits in full;
      otherwise one more than what is emitted. The final addition modulo n is done by the engine
      and is represented by its value. */
  method KeypairFromExtraBits(n: array<uint8>, c: array<uint8>) returns (status: EccStatus, ghost d: int)
    requires n.Length == c.Length == ECC_SCALAR_SIZE_BYTES
    ensures status == Success <==>
      OctetVal(n[..], n.Length) > 0 && ReduceSucceeds(OctetVal(c[..], c.Length), OctetVal(n[..], n.Length) - 1)
    ensures status == Success ==> 1 <= d < OctetVal(n[..], n.Length)
    ensures status == Success ==>
      var v := OctetVal(c[..], c.Length) % (OctetVal(n[..], n.Length) - 1);
      d == v % PowWord(WordsWritten(LimbCount(v))) + 1 && (FullyEmitted(v) <==> d == v + 1)
  {
    d := 0;
    var one := new uint8[ECC_SCALAR_SIZE_BYTES](i => if i == 0 then 1 else 0);
    OneIsOne(one[..]);
    var modulus := new uint8[ECC_SCALAR_SIZE_BYTES](_ => 0);
    ghost var ns, cs, N, C := n[..], c[..], OctetVal(n[..], n.Length), OctetVal(c[..], c.Length);
    status := ScalarMinus(modulus, n, one);
    assert n[..] == ns && c[..] == cs;
    if status != Success {
      return;
    }
    var residue;
    ghost var zero;
    status, residue, zero := ReduceToZeroed(c, modulus);
    if status != Success {
      return;
    }
    d := (OctetVal(residue[..], residue.Length) + 1) % N;
    KeyInRange(C, N, zero, residue[..], d);
  }

  /** Reduction into a new, zeroed result. */
  method ReduceToZeroed(c: array<uint8>, modulus: array<uint8>)
    returns (status: EccStatus, residue: array<uint8>, ghost zero: seq<uint8>)
    requires c.Length == modulus.Length == ECC_SCALAR_SIZE_BYTES
    ensures forall k :: 0 <= k < |zero| ==> zero[k] == 0
    ensures status ==
      if ReduceSucceeds(OctetVal(c[..], c.Length), OctetVal(modulus[..], modulus.Length)) then Success else Unknown
    ensures status == Success ==>
      ResidueStored(OctetVal(c[..], c.Length) % OctetVal(modulus[..], modulus.Length), zero, residue[..])
  {
    residue := new uint8[ECC_SCALAR_SIZE_BYTES](_ => 0);
    zero := residue[..];
    ghost var cs, ms := c[..], modulus[..];
    status := ScalarReduce(residue, c, modulus);
    assert c[..] == cs && modulus[..] == ms;
  }

  lemma OneIsOne(s: seq<uint8>)
    requires |s| > 0 && s[0] == 1 && forall k :: 0 < k < |s| ==> s[k] == 0
    ensures OctetVal(s, |s|) == 1
  {
    OctetZeroTail(s, 1, |s|);
    assert Pow256(0) == 1 && OctetVal(s, 1) == OctetVal(s, 0) + s[0] * Pow256(0);
  }

  lemma KeyInRange(c: int, n: int, zero: seq<uint8>, residue: seq<uint8>, d: int)
    requires n > 1 && c >= 0 && ResidueStored(c % (n - 1), zero, residue)
    requires forall k :: 0 <= k < |zero| ==> zero[k] == 0
    requires d == (OctetVal(residue, |residue|) + 1) % n
    ensures 1 <= d < n
    ensures var v := c % (n - 1);
            d == v % PowWord(WordsWritten(LimbCount(v))) + 1 && (FullyEmitted(v) <==> d == v + 1)
  {
    var v := c % (n - 1);
    var w := WordsWritten(LimbCount(v));
    PowWordOctets(w);
    OctetZeroTail(residue, 4 * w, |residue|);
    CutIsSmaller(v, Pow256(4 * w));
    var kept := OctetVal(residue, |residue|);
    DivModUnique(kept + 1, n, 0, kept + 1);
  }

  lemma CutIsSmaller(v: int, p: int)
    requires v >= 0 && p > 0
    ensures 0 <= v % p <= v
    ensures v < p ==> v % p == v
  {
    assert v == (v / p) * p + v % p;
    MulLe(0, v / p, p);
  }

  /** Storing loses every value of a single limb, and the low residues with them. */
  lemma SingleLimbIsLost(v: nat)
    requires 0 < v < BASE
    ensures !FullyEmitted(v) && v % PowWord(WordsWritten(LimbCount(v))) == 0
  {
    assert LimbCount(v / BASE) == 0;
    assert LimbCount(v) == 1 && PowWord(0) == 1;
  }
}
