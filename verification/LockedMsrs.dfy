/** What the locked registers map away from memory: the IORRs, the fixed-range registers, and the tops of memory. */
module LockedMsrs {
  import opened Word
  import opened Limbs
  import opened Bits
  import opened MemMap

  datatype Option<T> = None | Some(value: T)

  datatype Range = Range(lo: uint64, hi: uint64)

  const PHYS_ADDR_MASK: int := 0xF_FFFF_FFFF_FFFF
  const TWO_52: int := 0x10_0000_0000_0000
  const PAGE: int := 0x1000

  const MSR_SYS_CFG: nat := 0xC001_0010
  const MSR_IORR_BASE_16: nat := 0xC001_0016
  const MSR_IORR_BASE_18: nat := 0xC001_0018
  const MSR_TOP_MEM: nat := 0xC001_001A
  const MSR_TOM2: nat := 0xC001_001D

  /** The locked registers, by number; no value stands for a failed read. */
  type Msrs = nat -> Option<uint64>

  // The ranges that an IORR maps away from memory

  /** No value: a read failed. Otherwise the range to exclude, if any. */
  function IorrRange(msr: nat, msrs: Msrs): (r: Option<Option<Range>>)
    ensures r.Some? && r.value.Some? ==> r.value.value.lo <= r.value.value.hi
  {
    match msrs(msr + 1)
    case None => None
    case Some(mask) =>
      if mask / 0x800 % 2 == 0 then Some(None)
      else match msrs(msr)
        case None => None
        case Some(base) =>
          if base / 8 % 4 == 3 then Some(None)
          else
            Some(Some(IorrSpan(base, MaskBits(mask))))
  }

  /** Bits 12 to 51. */
  function MaskBits(mask: uint64): (m: int)
    ensures 0 <= m <= PHYS_ADDR_MASK
  {
    mask % TWO_52 / PAGE * PAGE
  }

  function IorrSpan(base: uint64, m: nat): (r: Range)
    requires m <= PHYS_ADDR_MASK
    ensures r.lo <= r.hi
  {
    var low := BitAnd(base, m);
    Range(low, low + (PHYS_ADDR_MASK - m))
  }

  /** A mask of `n` bits whose `k` lowest are zero. */
  function HighMask(k: nat, n: nat): nat
    requires k <= n
  {
    Pow2Mono(k, n);
    Pow2(n) - Pow2(k)
  }

  /** Such a mask clears the `k` lowest bits of a value of `n` bits. */
  lemma {:induction false} AndHighMask(a: nat, k: nat, n: nat)
    requires k <= n && a < Pow2(n)
    ensures BitAnd(a, HighMask(k, n)) == a - a % Pow2(k)
    decreases n
  {
    if k == n {
      DivModUnique(a, Pow2(n), 0, a);
    } else if k == 0 {
      AllOnes(a, n);
    } else {
      AndHighMask(a / 2, k - 1, n - 1);
      MaskDoubles(k, n);
      AndDoubled(a, HighMask(k - 1, n - 1), Pow2(k - 1));
    }
  }

  lemma AndDoubled(a: nat, h: nat, p: nat)
    requires p > 0 && BitAnd(a / 2, h) == a / 2 - a / 2 % p
    ensures BitAnd(a, 2 * h) == a - a % (2 * p)
  {
    AndEven(a, h);
    HalfMod(a, p);
  }

  lemma MaskDoubles(k: nat, n: nat)
    requires 0 < k <= n
    ensures HighMask(k, n) == 2 * HighMask(k - 1, n - 1) && Pow2(k) == 2 * Pow2(k - 1)
  {
  }

  lemma AndEven(a: nat, h: nat)
    ensures BitAnd(a, 2 * h) == 2 * BitAnd(a / 2, h)
  {
    assert 2 * h / 2 == h && 2 * h % 2 == 0;
  }

  lemma {:induction false} AllOnes(a: nat, n: nat)
    requires a < Pow2(n)
    ensures BitAnd(a, Pow2(n) - 1) == a
  {
    if a > 0 {
      assert n > 0;
      AllOnes(a / 2, n - 1);
      assert (2 * Pow2(n - 1) - 1) / 2 == Pow2(n - 1) - 1;
    }
  }

  lemma HalfMod(a: nat, p: nat)
    requires p > 0
    ensures 2 * (a / 2 - a / 2 % p) == a - a % (2 * p)
  {
    var h := a / 2;
    var q := h / p;
    assert h == q * p + h % p;
    assert q * (2 * p) == 2 * (q * p);
    DivModUnique(a, 2 * p, q, a - q * (2 * p));
  }

  /** For a mask with its zeros at the low end the excluded range is exactly the addresses that match the base in
      all masked bits. */
  lemma IorrMeaning(base: nat, k: nat, n: nat, a: nat)
    requires k <= n && base < Pow2(n) && a < Pow2(n)
    ensures var low := BitAnd(base, HighMask(k, n));
            BitAnd(a, HighMask(k, n)) == low <==> low <= a <= low + (Pow2(n) - 1 - HighMask(k, n))
  {
    AndHighMask(a, k, n);
    AndHighMask(base, k, n);
    SameBlock(a, base, Pow2(k));
  }

  lemma SameBlock(a: nat, b: nat, p: nat)
    requires p > 0
    ensures a - a % p == b - b % p <==> b - b % p <= a <= b - b % p + (p - 1)
  {
    var q, c := a / p, b / p;
    assert a == q * p + a % p && b == c * p + b % p;
    if c * p <= a <= c * p + (p - 1) {
      DivModUnique(a, p, c, a - c * p);
    }
  }

  lemma TwoTo52()
    ensures Pow2(52) == TWO_52
  {
    assert Pow2(13) == 0x2000;
    Pow2Add(13, 13);
    Pow2Add(26, 26);
  }

  /** The bits above a mask do not matter. */
  lemma {:induction false} AndLow(a: nat, m: nat, n: nat)
    requires m < Pow2(n)
    ensures BitAnd(a, m) == BitAnd(a % Pow2(n), m)
    decreases n
  {
    if a != 0 && n > 0 && m != 0 {
      AndLow(a / 2, m / 2, n - 1);
      HalfOfLow(a, Pow2(n - 1));
      AndUnfold(a, m);
      AndUnfold(a % Pow2(n), m);
    }
  }

  lemma AndUnfold(a: nat, b: nat)
    ensures BitAnd(a, b) == (if a % 2 == 1 && b % 2 == 1 then 1 else 0) + 2 * BitAnd(a / 2, b / 2)
  {
  }

  /** Clearing the bits outside a mask takes away at most what the mask leaves free. */
  lemma {:induction false} AndGap(a: nat, m: nat, n: nat)
    requires a < Pow2(n) && m < Pow2(n)
    ensures BitAnd(a, m) <= a <= BitAnd(a, m) + (Pow2(n) - 1 - m)
    decreases n
  {
    if n > 0 {
      AndGap(a / 2, m / 2, n - 1);
      AndUnfold(a, m);
    }
  }

  /** Whatever the mask: every address that matches the base in all masked bits is excluded. */
  lemma IorrCoversMatches(base: uint64, m: int, a: nat)
    requires 0 <= m <= PHYS_ADDR_MASK && a < TWO_52
    ensures BitAnd(a, m) == BitAnd(base, m) ==> IorrSpan(base, m).lo <= a <= IorrSpan(base, m).hi
  {
    TwoTo52();
    AndGap(a, m, 52);
  }

  /** The zeros of a mask of `n` bits are at its low end. */
  ghost predicate Contiguous(m: nat, n: nat) {
    exists k :: 0 <= k <= n && m == HighMask(k, n)
  }

  /** A mask that is not contiguous has a one with a zero somewhere above it. */
  lemma {:induction false} OneBelowZero(m: nat, n: nat) returns (j: nat, i: nat)
    requires m < Pow2(n) && !Contiguous(m, n)
    ensures j < i < n && Bit(m, j) && !Bit(m, i)
  {
    assert m != HighMask(n, n);
    if m % 2 == 1 {
      assert m != HighMask(0, n);
      i := ZeroSomewhere(m, n);
      j := 0;
    } else {
      if Contiguous(m / 2, n - 1) {
        TwiceContiguous(m, n);
      }
      j, i := OneBelowZero(m / 2, n - 1);
      j, i := j + 1, i + 1;
    }
  }

  lemma TwiceContiguous(m: nat, n: nat)
    requires n > 0 && m % 2 == 0 && Contiguous(m / 2, n - 1)
    ensures Contiguous(m, n)
  {
    var k :| 0 <= k <= n - 1 && m / 2 == HighMask(k, n - 1);
    assert m == HighMask(k + 1, n);
  }

  lemma {:induction false} ZeroSomewhere(m: nat, n: nat) returns (i: nat)
    requires m < Pow2(n) - 1
    ensures i < n && !Bit(m, i)
  {
    if m % 2 == 0 {
      i := 0;
    } else {
      i := ZeroSomewhere(m / 2, n - 1);
      i := i + 1;
    }
  }

  /** Nothing else is excluded, for all bases, exactly when the zeros of the mask are at its low end. */
  lemma IorrExcludesMatches(m: nat)
    requires m <= PHYS_ADDR_MASK
    ensures Contiguous(m, 52) <==>
            forall base: uint64, a: nat :: a < TWO_52 && IorrSpan(base, m).lo <= a <= IorrSpan(base, m).hi ==>
              BitAnd(a, m) == BitAnd(base, m)
  {
    TwoTo52();
    if Contiguous(m, 52) {
      var k :| 0 <= k <= 52 && m == HighMask(k, 52);
      forall base: uint64, a: nat | a < TWO_52 && IorrSpan(base, m).lo <= a <= IorrSpan(base, m).hi
        ensures BitAnd(a, m) == BitAnd(base, m)
      {
        AndLow(base, m, 52);
        IorrMeaning(base % Pow2(52), k, 52, a);
      }
    } else {
      var j, i := OneBelowZero(m, 52);
      MismatchInside(m, j, i);
    }
  }

  /** The address 2^j lies in the range for the base 0, and does not match it. */
  lemma MismatchInside(m: nat, j: nat, i: nat)
    requires m <= PHYS_ADDR_MASK && j < i < 52 && Bit(m, j) && !Bit(m, i)
    ensures Pow2(j) < TWO_52 && IorrSpan(0, m).lo <= Pow2(j) <= IorrSpan(0, m).hi
    ensures BitAnd(Pow2(j), m) != BitAnd(0, m)
  {
    TwoTo52();
    Pow2Mono(j, i);
    Pow2Mono(i, 52);
    AndCommutative(Pow2(j), m);
    AndPower(m, j);
    ComplementBit(m, 52, i);
    BitAtLeast(Complement(m, 52), i);
  }

  lemma {:induction false} BitAtLeast(a: nat, i: nat)
    requires Bit(a, i)
    ensures a >= Pow2(i)
    decreases i
  {
    if i > 0 {
      BitAtLeast(a / 2, i - 1);
    }
  }

  // The fixed-range registers: eight ranges each, one octet a range

  datatype FixedMtrr = FixedMtrr(msr: nat, base: nat, size: nat, octets: nat)

  const FIXED_MTRRS: seq<FixedMtrr> := [
    FixedMtrr(0x250, 0x00000, 0x10000, 8),
    FixedMtrr(0x258, 0x80000, 0x04000, 8),
    FixedMtrr(0x259, 0xA0000, 0x04000, 8),
    FixedMtrr(0x268, 0xC0000, 0x01000, 8),
    FixedMtrr(0x269, 0xC8000, 0x01000, 8),
    FixedMtrr(0x26A, 0xD0000, 0x01000, 8),
    FixedMtrr(0x26B, 0xD8000, 0x01000, 8),
    FixedMtrr(0x26C, 0xE0000, 0x01000, 8),
    FixedMtrr(0x26D, 0xE8000, 0x01000, 8),
    FixedMtrr(0x26E, 0xF0000, 0x01000, 8),
    FixedMtrr(0x26F, 0xF8000, 0x01000, 8)
  ]

  /** The ranges that the `n` low octets of a register map away from memory for reads or writes. */
  function MtrrRanges(value: nat, base: nat, size: nat, n: nat): seq<Range>
    requires 0 < size <= 0x10000 && base + 0x10000 * n <= 0x20_0000
    decreases n
  {
    if n == 0 then []
    else
      OctetRange(value, base, size) + MtrrRanges(value / 256, base + size, size, n - 1)
  }

  predicate FixedOk(m: FixedMtrr) {
    0 < m.size <= 0x10000 && m.base + 0x10000 * m.octets <= 0x20_0000
  }

  ghost predicate TableOk(table: seq<FixedMtrr>) {
    forall i :: 0 <= i < |table| ==> FixedOk(table[i])
  }

  /** The ranges of the first `k` registers; none if one of them cannot be read. */
  function FixedRanges(msrs: Msrs, table: seq<FixedMtrr>, k: nat): Option<seq<Range>>
    requires k <= |table| && forall i :: 0 <= i < |table| ==> FixedOk(table[i])
  {
    if k == 0 then Some([])
    else
      match FixedRanges(msrs, table, k - 1)
      case None => None
      case Some(ranges) =>
        var m := table[k - 1];
        match msrs(m.msr)
        case None => None
        case Some(value) => Some(ranges + MtrrRanges(value, m.base, m.size, m.octets))
  }

  /** The range of the low octet of a register, if that octet is not write-back memory. */
  function OctetRange(value: nat, base: nat, size: nat): seq<Range>
    requires 0 < size && base + size <= 0x20_0000
  {
    if value / 8 % 4 != 3 then [Range(base, base + size - 1)] else []
  }

  lemma OneOctet(past: seq<Range>, value: nat, base: nat, size: nat, n: nat)
    requires n > 0 && 0 < size <= 0x10000 && base + 0x10000 * n <= 0x20_0000
    ensures past + MtrrRanges(value, base, size, n)
         == (past + OctetRange(value, base, size)) + MtrrRanges(value / 256, base + size, size, n - 1)
  {
  }

  lemma NoOctets(past: seq<Range>, value: nat, base: nat, size: nat)
    requires 0 < size <= 0x10000 && base <= 0x20_0000
    ensures past + MtrrRanges(value, base, size, 0) == past
  {
  }

  lemma Associates(a: seq<Range>, b: seq<Range>, c: seq<Range>)
    ensures a + (b + c) == a + b + c
  {
  }

  /** If the ranges of the first registers are unknown, so are those of more. */
  lemma {:induction false} FixedUnknown(msrs: Msrs, table: seq<FixedMtrr>, i: nat, k: nat)
    requires i <= k <= |table| && TableOk(table) && FixedRanges(msrs, table, k).Some?
    ensures FixedRanges(msrs, table, i).Some?
    decreases k
  {
    if i < k {
      FixedUnknown(msrs, table, i, k - 1);
    }
  }

  /** The ranges of the first registers come first. */
  lemma {:induction false} FixedPrefix(msrs: Msrs, table: seq<FixedMtrr>, i: nat, k: nat) returns (rest: seq<Range>)
    requires i <= k <= |table| && TableOk(table) && FixedRanges(msrs, table, k).Some?
    requires FixedRanges(msrs, table, i).Some?
    ensures FixedRanges(msrs, table, k).value == FixedRanges(msrs, table, i).value + rest
    decreases k
  {
    if i == k {
      rest := [];
    } else {
      var m, first := table[k - 1], FixedRanges(msrs, table, i).value;
      rest := FixedPrefix(msrs, table, i, k - 1);
      var more := MtrrRanges(msrs(m.msr).value, m.base, m.size, m.octets);
      Associates(first, rest, more);
      rest := rest + more;
    }
  }

  lemma NextFixed(msrs: Msrs, table: seq<FixedMtrr>, i: nat, past: seq<Range>) returns (rest: seq<Range>)
    requires i < |table| && TableOk(table) && FixedRanges(msrs, table, i).Some?
    ensures msrs(table[i].msr).None? ==> FixedRanges(msrs, table, |table|).None?
    ensures msrs(table[i].msr).Some? ==>
      var m := table[i];
      var all := past + FixedRanges(msrs, table, i).value + MtrrRanges(msrs(m.msr).value, m.base, m.size, m.octets);
      && FixedRanges(msrs, table, i + 1).Some? && past + FixedRanges(msrs, table, i + 1).value == all
      && (FixedRanges(msrs, table, |table|).Some? ==> past + FixedRanges(msrs, table, |table|).value == all + rest)
  {
    rest := [];
    var read := msrs(table[i].msr);
    if FixedRanges(msrs, table, |table|).Some? {
      FixedUnknown(msrs, table, i + 1, |table|);
      rest := FixedPrefix(msrs, table, i + 1, |table|);
    }
    if read.Some? {
      var m := table[i];
      var first, more := FixedRanges(msrs, table, i).value, MtrrRanges(read.value, m.base, m.size, m.octets);
      Associates(past, first, more);
      Associates(past, first + more, rest);
    }
  }

  function SysCfg(msrs: Msrs): uint64 {
    match msrs(MSR_SYS_CFG)
    case None => 0
    case Some(v) => v
  }

  predicate Tom2Enabled(syscfg: uint64) {
    syscfg / 0x20_0000 % 2 == 1
  }

  predicate MtrrFixEnabled(syscfg: uint64) {
    syscfg / 0x4_0000 % 2 == 1
  }

  /** The range of an IORR as a list; none if a register cannot be read. */
  function IorrRanges(msr: nat, msrs: Msrs): Option<seq<Range>> {
    match IorrRange(msr, msrs)
    case None => None
    case Some(r) => Some(if r.None? then [] else [r.value])
  }

  /** High memory without its top register; with it, that must agree with the map. */
  function Tom2Ranges(msrs: Msrs, tom2: uint64): Option<seq<Range>> {
    if !Tom2Enabled(SysCfg(msrs)) then Some([Range(SIZE_4GB, PHYS_ADDR_MASK)])
    else if msrs(MSR_TOM2) == Some(tom2) then Some([]) else None
  }

  /** The ranges of the first megabyte. */
  function LowRanges(msrs: Msrs, table: seq<FixedMtrr>): Option<seq<Range>>
    requires TableOk(table)
  {
    if MtrrFixEnabled(SysCfg(msrs)) then FixedRanges(msrs, table, |table|) else Some([Range(0, 0xF_FFFF)])
  }

  /** One list after the other, if both are known. */
  function Joined(a: Option<seq<Range>>, b: Option<seq<Range>>): Option<seq<Range>> {
    if a.None? || b.None? then None else Some(a.value + b.value)
  }

  function MappedRanges(msrs: Msrs, table: seq<FixedMtrr>): Option<seq<Range>>
    requires TableOk(table)
  {
    Joined(IorrRanges(MSR_IORR_BASE_16, msrs), Joined(IorrRanges(MSR_IORR_BASE_18, msrs), LowRanges(msrs, table)))
  }

  /** All ranges that the locked registers take away; none if a register cannot be read, or disagrees with a top of
      memory. */
  function LockedRanges(msrs: Msrs, table: seq<FixedMtrr>, tom: uint64, tom2: uint64): Option<seq<Range>>
    requires TableOk(table)
  {
    if msrs(MSR_TOP_MEM) != Some(tom) then None else Joined(Tom2Ranges(msrs, tom2), MappedRanges(msrs, table))
  }

  lemma FixedTableOk()
    ensures TableOk(FIXED_MTRRS)
  {
  }
}
