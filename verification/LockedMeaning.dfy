/** What the locked registers say of one address, told by bits of registers and apart from any list of ranges. */
module LockedMeaning {
  import opened Word
  import opened Limbs
  import opened Bits
  import opened LockedMsrs
  import opened MemCuts

  /** The value of a register; zero if it cannot be read. */
  function Reg(msrs: Msrs, n: nat): uint64 {
    match msrs(n)
    case None => 0
    case Some(v) => v
  }

  /** Without bit 21 of SYSCFG, memory from 4 GB on is not usable. */
  ghost predicate HighAway(msrs: Msrs, a: int) {
    !Bit(Reg(msrs, 0xC001_0010), 21) && 0x1_0000_0000 <= a < 0x10_0000_0000_0000
  }

  /** `m` is the page part of a mask register. */
  ghost predicate IsPageMask(m: nat, mask: uint64) {
    forall k :: 0 <= k ==> (Bit(m, k) <==> 12 <= k < 52 && Bit(mask, k))
  }

  /** The IORR with base register `n` is valid, and does not send both reads and writes to memory; and the address lies
      between the base and the end of what the mask leaves free. */
  ghost predicate IorrAway(msrs: Msrs, n: nat, a: int) {
    var base, mask := Reg(msrs, n), Reg(msrs, n + 1);
    && Bit(mask, 11) && !(Bit(base, 3) && Bit(base, 4))
    && exists m: nat :: IsPageMask(m, mask) && BitAnd(base, m) <= a <= BitAnd(base, m) + (0xF_FFFF_FFFF_FFFF - m)
  }

  /** The fixed-range register of an address below 1 MB, and the octet of it. */
  function FixedRegister(a: nat): nat {
    if a < 0x8_0000 then 0x250
    else if a < 0xC_0000 then 0x258 + (a - 0x8_0000) / 0x2_0000
    else 0x268 + (a - 0xC_0000) / 0x8000
  }

  function FixedOctet(a: nat): nat {
    if a < 0x8_0000 then a / 0x1_0000
    else if a < 0xC_0000 then a % 0x2_0000 / 0x4000
    else a % 0x8000 / 0x1000
  }

  /** Bits 3 and 4 of octet `j` do not both say memory. */
  ghost predicate OctetAway(value: nat, j: nat) {
    !(Bit(value, 8 * j + 3) && Bit(value, 8 * j + 4))
  }

  /** The address is in the first megabyte; and if the fixed-range registers are enabled, by bit 18 of SYSCFG, one of
      bits 3 and 4 of its octet is clear: reads or writes do not go to memory. */
  ghost predicate LowAway(msrs: Msrs, a: int) {
    && 0 <= a < 0x10_0000
    && (Bit(Reg(msrs, 0xC001_0010), 18) ==>
          OctetAway(Reg(msrs, FixedRegister(a)), FixedOctet(a)))
  }

  ghost predicate MapsAway(msrs: Msrs, a: int) {
    HighAway(msrs, a) || IorrAway(msrs, 0xC001_0016, a) || IorrAway(msrs, 0xC001_0018, a) || LowAway(msrs, a)
  }

  /** The registers that are needed can be read, and agree on the tops of memory. */
  ghost predicate RegistersKnown(msrs: Msrs, tom: uint64, tom2: uint64) {
    && msrs(0xC001_001A) == Some(tom)
    && (Bit(Reg(msrs, 0xC001_0010), 21) ==> msrs(0xC001_001D) == Some(tom2))
    && IorrKnown(msrs, 0xC001_0016) && IorrKnown(msrs, 0xC001_0018)
    && LowRegistersKnown(msrs)
  }

  ghost predicate IorrKnown(msrs: Msrs, n: nat) {
    msrs(n + 1).Some? && (Bit(Reg(msrs, n + 1), 11) ==> msrs(n).Some?)
  }

  /** All fixed-range registers can be read, if they are enabled. */
  ghost predicate LowRegistersKnown(msrs: Msrs) {
    Bit(Reg(msrs, 0xC001_0010), 18) ==> forall a: nat :: a < 0x10_0000 ==> msrs(FixedRegister(a)).Some?
  }

  // Bits of the registers

  lemma TwoBits(v: nat)
    ensures v / 8 % 4 == 3 <==> Bit(v, 3) && Bit(v, 4)
  {
    BitByDivision(v, 3);
    BitByDivision(v, 4);
    assert Pow2(3) == 8 && Pow2(4) == 16;
    var h := v / 8;
    assert v / 16 == h / 2;
  }

  lemma FlagBits(v: nat)
    ensures v / 0x800 % 2 == 1 <==> Bit(v, 11)
    ensures v / 0x4_0000 % 2 == 1 <==> Bit(v, 18)
    ensures v / 0x20_0000 % 2 == 1 <==> Bit(v, 21)
  {
    BitByDivision(v, 11);
    BitByDivision(v, 18);
    BitByDivision(v, 21);
    assert Pow2(11) == 0x800;
    Pow2Add(11, 7);
    assert Pow2(7) == 128;
    Pow2Add(18, 3);
    assert Pow2(3) == 8;
  }

  lemma ByteOfRegister(v: nat, j: nat, k: nat)
    ensures Bit(v / 256, 8 * j + k) == Bit(v, 8 * (j + 1) + k)
  {
    assert Pow2(8) == 256;
    BitAbove(v, 8, v / 256, 8 * j + k);
  }

  // The IORRs

  lemma MaskBitsAre(mask: uint64)
    ensures IsPageMask(MaskBits(mask), mask)
  {
    TwoTo52();
    assert Pow2(12) == 4096;
    var low := mask % TWO_52;
    forall k: nat
      ensures Bit(MaskBits(mask), k) <==> 12 <= k < 52 && Bit(mask, k)
    {
      MultipleBits(low / 4096, 12, k);
      if k >= 12 {
        BitAbove(low, 12, low / 4096, k - 12);
        LowBitsOf(mask, 52, k);
      }
    }
  }

  lemma PageMaskUnique(m: nat, n: nat, mask: uint64)
    requires IsPageMask(m, mask) && IsPageMask(n, mask)
    ensures m == n
  {
    NoHighBits(m, 52);
    NoHighBits(n, 52);
    SameBits(m, n, 52);
  }

  lemma IorrIs(msrs: Msrs, n: nat)
    ensures IorrRanges(n, msrs).Some? <==> IorrKnown(msrs, n)
    ensures IorrRanges(n, msrs).Some? ==> forall a :: InAny(IorrRanges(n, msrs).value, a) <==> IorrAway(msrs, n, a)
  {
    var base, mask := Reg(msrs, n), Reg(msrs, n + 1);
    FlagBits(mask);
    TwoBits(base);
    if IorrRanges(n, msrs).Some? {
      MaskBitsAre(mask);
      forall a
        ensures InAny(IorrRanges(n, msrs).value, a) <==> IorrAway(msrs, n, a)
      {
        IorrAt(msrs, n, a);
      }
    }
  }

  lemma IorrAt(msrs: Msrs, n: nat, a: int)
    requires IorrRanges(n, msrs).Some? && IsPageMask(MaskBits(Reg(msrs, n + 1)), Reg(msrs, n + 1))
    ensures InAny(IorrRanges(n, msrs).value, a) <==> IorrAway(msrs, n, a)
  {
    var base, mask := Reg(msrs, n), Reg(msrs, n + 1);
    FlagBits(mask);
    TwoBits(base);
    var m := MaskBits(mask);
    if IorrAway(msrs, n, a) {
      var l: nat :| IsPageMask(l, mask) && BitAnd(base, l) <= a <= BitAnd(base, l) + (0xF_FFFF_FFFF_FFFF - l);
      PageMaskUnique(l, m, mask);
      assert IorrRanges(n, msrs).value[0] == IorrSpan(base, m);
    }
  }

  // The fixed-range registers

  /** `a` is in the range of octet `j`, of `n` octets, and that is mapped away. */
  ghost predicate InOctet(value: nat, base: nat, size: nat, n: nat, j: nat, a: int) {
    j < n && base + size * j <= a < base + size * (j + 1) && OctetAway(value, j)
  }

  lemma InJoined(r: seq<Range>, s: seq<Range>, a: int)
    ensures InAny(r + s, a) <==> InAny(r, a) || InAny(s, a)
  {
    InPrefix(r, s, a);
    if k :| 0 <= k < |s| && s[k].lo <= a <= s[k].hi {
      assert (r + s)[|r| + k] == s[k];
    }
    if k :| 0 <= k < |r + s| && (r + s)[k].lo <= a <= (r + s)[k].hi {
      assert if k < |r| then (r + s)[k] == r[k] else (r + s)[k] == s[k - |r|];
    }
  }

  lemma InOne(r: Range, a: int)
    ensures InAny([r], a) <==> r.lo <= a <= r.hi
  {
    assert [r][0] == r;
  }

  /** `a` is in the range of one of the `n` low octets of a register, and that is mapped away. */
  ghost predicate InRegister(value: nat, base: nat, size: nat, n: nat, a: int) {
    exists j: nat :: InOctet(value, base, size, n, j, a)
  }

  lemma NextInOctet(value: nat, base: nat, size: nat, n: nat, j: nat, a: int)
    requires n > 0
    ensures InOctet(value / 256, base + size, size, n - 1, j, a) <==> InOctet(value, base, size, n, j + 1, a)
  {
    ByteOfRegister(value, j, 3);
    ByteOfRegister(value, j, 4);
    assert base + size + size * j == base + size * (j + 1);
    assert base + size + size * (j + 1) == base + size * (j + 2);
  }

  lemma NextInRegister(value: nat, base: nat, size: nat, n: nat, next: nat, above: nat, less: nat, a: int)
    requires n > 0 && next == value / 256 && above == base + size && less == n - 1
    ensures InRegister(value, base, size, n, a) <==>
            InOctet(value, base, size, n, 0, a) || InRegister(next, above, size, less, a)
  {
    if j: nat :| InOctet(next, above, size, less, j, a) {
      NextInOctet(value, base, size, n, j, a);
      assert InOctet(value, base, size, n, j + 1, a);
    }
    if j: nat :| InOctet(value, base, size, n, j, a) {
      if j > 0 {
        NextInOctet(value, base, size, n, j - 1, a);
        assert InOctet(next, above, size, less, j - 1, a);
      }
    }
  }

  lemma LowOctet(value: nat, base: nat, size: nat, n: nat, a: int)
    requires n > 0 && 0 < size && base + size <= 0x20_0000
    ensures InAny(OctetRange(value, base, size), a) <==> InOctet(value, base, size, n, 0, a)
  {
    TwoBits(value);
    if value / 8 % 4 != 3 {
      InOne(Range(base, base + size - 1), a);
    }
  }

  lemma {:induction false} MtrrAt(value: nat, base: nat, size: nat, n: nat, a: int)
    requires 0 < size <= 0x10000 && base + 0x10000 * n <= 0x20_0000
    ensures InAny(MtrrRanges(value, base, size, n), a) <==> InRegister(value, base, size, n, a)
    decreases n
  {
    if n > 0 {
      MtrrAt(value / 256, base + size, size, n - 1, a);
      InJoined(OctetRange(value, base, size), MtrrRanges(value / 256, base + size, size, n - 1), a);
      LowOctet(value, base, size, n, a);
      NextInRegister(value, base, size, n, value / 256, base + size, n - 1, a);
    }
  }

  ghost predicate InEntry(msrs: Msrs, m: FixedMtrr, a: int) {
    InRegister(Reg(msrs, m.msr), m.base, m.size, m.octets, a)
  }

  lemma {:induction false} FixedAt(msrs: Msrs, table: seq<FixedMtrr>, k: nat, a: int)
    requires k <= |table| && TableOk(table) && FixedRanges(msrs, table, k).Some?
    ensures InAny(FixedRanges(msrs, table, k).value, a) <==> exists i :: 0 <= i < k && InEntry(msrs, table[i], a)
  {
    if k > 0 {
      var m := table[k - 1];
      FixedAt(msrs, table, k - 1, a);
      MtrrAt(Reg(msrs, m.msr), m.base, m.size, m.octets, a);
      InJoined(FixedRanges(msrs, table, k - 1).value, MtrrRanges(Reg(msrs, m.msr), m.base, m.size, m.octets), a);
    }
  }

  lemma {:induction false} FixedKnown(msrs: Msrs, table: seq<FixedMtrr>, k: nat)
    requires k <= |table| && TableOk(table)
    ensures FixedRanges(msrs, table, k).Some? <==> forall i :: 0 <= i < k ==> msrs(table[i].msr).Some?
  {
    if k > 0 {
      FixedKnown(msrs, table, k - 1);
    }
  }

  /** Which entry of the table covers an address, and with which octet. */
  lemma EntryOfAddress(i: nat, a: int)
    requires i < |FIXED_MTRRS|
    ensures var m := FIXED_MTRRS[i];
            && (m.base <= a < m.base + m.size * m.octets <==> 0 <= a < 0x10_0000 && FixedRegister(a) == m.msr)
            && (m.base <= a < m.base + m.size * m.octets ==>
                  && FixedOctet(a) < m.octets
                  && m.base + m.size * FixedOctet(a) <= a < m.base + m.size * (FixedOctet(a) + 1))
  {
    match i
    case 0 =>
    case 1 =>
    case 2 =>
    case 3 =>
    case 4 =>
    case 5 =>
    case 6 =>
    case 7 =>
    case 8 =>
    case 9 =>
    case 10 =>
  }

  /** The entry of an address, by its place in the table. */
  function EntryIndex(a: nat): (i: nat)
    requires a < 0x10_0000
    ensures i < |FIXED_MTRRS|
  {
    if a < 0x8_0000 then 0
    else if a < 0xC_0000 then 1 + (a - 0x8_0000) / 0x2_0000
    else 3 + (a - 0xC_0000) / 0x8000
  }

  lemma ProductOrder(size: nat, j: nat, l: nat)
    ensures j < l ==> size * (j + 1) <= size * l
    ensures 0 <= size * j
  {
  }

  lemma OneOctetOnly(size: nat, x: nat, j: nat, l: nat)
    requires size * j <= x < size * (j + 1) && size * l <= x < size * (l + 1)
    ensures j == l
  {
    ProductOrder(size, j, l);
    ProductOrder(size, l, j);
  }

  lemma EntryAt(msrs: Msrs, i: nat, a: int)
    requires i < |FIXED_MTRRS|
    ensures InEntry(msrs, FIXED_MTRRS[i], a) <==>
            0 <= a < 0x10_0000 && FixedRegister(a) == FIXED_MTRRS[i].msr &&
            OctetAway(Reg(msrs, FixedRegister(a)), FixedOctet(a))
  {
    var m := FIXED_MTRRS[i];
    EntryOfAddress(i, a);
    if j: nat :| InOctet(Reg(msrs, m.msr), m.base, m.size, m.octets, j, a) {
      ProductOrder(m.size, j, m.octets);
      OneOctetOnly(m.size, a - m.base, j, FixedOctet(a));
    }
    if m.base <= a < m.base + m.size * m.octets && OctetAway(Reg(msrs, m.msr), FixedOctet(a)) {
      assert InOctet(Reg(msrs, m.msr), m.base, m.size, m.octets, FixedOctet(a), a);
    }
  }

  lemma IndexOfRegister(a: nat)
    requires a < 0x10_0000
    ensures FIXED_MTRRS[EntryIndex(a)].msr == FixedRegister(a)
  {
    var i := EntryIndex(a);
    EntryOfAddress(i, a);
    if a < 0x8_0000 {
    } else if a < 0xC_0000 {
      assert i == 1 || i == 2;
    } else {
      var d := (a - 0xC_0000) / 0x8000;
      assert i == 3 + d && d < 8;
    }
  }

  lemma LowKnown(msrs: Msrs)
    requires TableOk(FIXED_MTRRS)
    ensures FixedRanges(msrs, FIXED_MTRRS, |FIXED_MTRRS|).Some? <==>
            forall a: nat :: a < 0x10_0000 ==> msrs(FixedRegister(a)).Some?
  {
    FixedKnown(msrs, FIXED_MTRRS, |FIXED_MTRRS|);
    if forall i :: 0 <= i < |FIXED_MTRRS| ==> msrs(FIXED_MTRRS[i].msr).Some? {
      forall a: nat | a < 0x10_0000
        ensures msrs(FixedRegister(a)).Some?
      {
        IndexOfRegister(a);
      }
    } else {
      var i :| 0 <= i < |FIXED_MTRRS| && msrs(FIXED_MTRRS[i].msr).None?;
      var a := FIXED_MTRRS[i].base;
      EntryOfAddress(i, a);
      assert FixedRegister(a) == FIXED_MTRRS[i].msr;
    }
  }

  lemma LowAt(msrs: Msrs, a: int)
    requires TableOk(FIXED_MTRRS) && FixedRanges(msrs, FIXED_MTRRS, |FIXED_MTRRS|).Some?
    ensures InAny(FixedRanges(msrs, FIXED_MTRRS, |FIXED_MTRRS|).value, a) <==>
            0 <= a < 0x10_0000 && OctetAway(Reg(msrs, FixedRegister(a)), FixedOctet(a))
  {
    FixedAt(msrs, FIXED_MTRRS, |FIXED_MTRRS|, a);
    if i :| 0 <= i < |FIXED_MTRRS| && InEntry(msrs, FIXED_MTRRS[i], a) {
      EntryAt(msrs, i, a);
    }
    if 0 <= a < 0x10_0000 {
      IndexOfRegister(a);
      EntryAt(msrs, EntryIndex(a), a);
    }
  }

  lemma LowOf(msrs: Msrs, a: int)
    requires TableOk(FIXED_MTRRS) && LowRanges(msrs, FIXED_MTRRS).Some?
    ensures InAny(LowRanges(msrs, FIXED_MTRRS).value, a) <==> LowAway(msrs, a)
  {
    var syscfg := SysCfg(msrs);
    FlagBits(syscfg);
    if MtrrFixEnabled(syscfg) {
      LowAt(msrs, a);
    } else {
      InOne(Range(0, 0xF_FFFF), a);
    }
  }

  /** The first megabyte: what the list of ranges says is what the register and the octet of each address say. */
  lemma LowIs(msrs: Msrs)
    requires TableOk(FIXED_MTRRS)
    ensures LowRanges(msrs, FIXED_MTRRS).Some? <==> LowRegistersKnown(msrs)
    ensures LowRanges(msrs, FIXED_MTRRS).Some? ==>
      forall a :: InAny(LowRanges(msrs, FIXED_MTRRS).value, a) <==> LowAway(msrs, a)
  {
    FlagBits(SysCfg(msrs));
    LowKnown(msrs);
    if LowRanges(msrs, FIXED_MTRRS).Some? {
      forall a
        ensures InAny(LowRanges(msrs, FIXED_MTRRS).value, a) <==> LowAway(msrs, a)
      {
        LowOf(msrs, a);
      }
    }
  }

  lemma HighIs(msrs: Msrs, tom2: uint64)
    ensures Tom2Ranges(msrs, tom2).Some? <==> (Bit(Reg(msrs, 0xC001_0010), 21) ==> msrs(0xC001_001D) == Some(tom2))
    ensures Tom2Ranges(msrs, tom2).Some? ==>
      forall a :: InAny(Tom2Ranges(msrs, tom2).value, a) <==> HighAway(msrs, a)
  {
    FlagBits(SysCfg(msrs));
    forall a
      ensures InAny([Range(0x1_0000_0000, 0xF_FFFF_FFFF_FFFF)], a) <==> 0x1_0000_0000 <= a < 0x10_0000_0000_0000
    {
      InOne(Range(0x1_0000_0000, 0xF_FFFF_FFFF_FFFF), a);
    }
  }

  /** The list of ranges that the locked registers take away is known exactly when the registers that are needed are;
      and its addresses are those that the registers map away. */
  lemma LockedIs(msrs: Msrs, tom: uint64, tom2: uint64)
    requires TableOk(FIXED_MTRRS)
    ensures LockedRanges(msrs, FIXED_MTRRS, tom, tom2).Some? <==> RegistersKnown(msrs, tom, tom2)
    ensures LockedRanges(msrs, FIXED_MTRRS, tom, tom2).Some? ==>
      forall a :: InAny(LockedRanges(msrs, FIXED_MTRRS, tom, tom2).value, a) <==> MapsAway(msrs, a)
  {
    HighIs(msrs, tom2);
    IorrIs(msrs, 0xC001_0016);
    IorrIs(msrs, 0xC001_0018);
    LowIs(msrs);
    if LockedRanges(msrs, FIXED_MTRRS, tom, tom2).Some? {
      var high, low := Tom2Ranges(msrs, tom2).value, LowRanges(msrs, FIXED_MTRRS).value;
      var i16, i18 := IorrRanges(0xC001_0016, msrs).value, IorrRanges(0xC001_0018, msrs).value;
      forall a
        ensures InAny(LockedRanges(msrs, FIXED_MTRRS, tom, tom2).value, a) <==> MapsAway(msrs, a)
      {
        InJoined(high, i16 + (i18 + low), a);
        InJoined(i16, i18 + low, a);
        InJoined(i18, low, a);
      }
    }
  }
}
