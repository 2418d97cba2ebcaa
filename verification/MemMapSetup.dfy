/** Building the map of reliable memory from what the boot loader and the locked registers say. */
module MemMapSetup {
  import opened Word
  import opened MemMap
  import opened MemMerge
  import opened LockedMsrs
  import opened MemCuts
  import opened LockedMeaning

  /** Cuts out the range of one octet. */
  method ExcludeOctet(map_: SysMemMap, msr: nat, base: nat, size: nat, ghost c: Series, ghost past: seq<Range>)
    returns (ok: bool)
    requires map_.Valid() && 0 < size && base + size <= 0x20_0000
    requires OnTrack(c, past, map_.region.Length, map_.region[..], map_.descNum)
    modifies map_`descNum, map_.region
    ensures map_.Valid()
    ensures var all := past + OctetRange(msr, base, size);
            if ok then OnTrack(c, all, map_.region.Length, map_.region[..], map_.descNum)
            else Stuck(c, all, map_.region.Length)
  {
    if msr / 8 % 4 != 3 {
      ok := ExcludeRange(map_, Range(base, base + size - 1), c, past);
    } else {
      assert past + [] == past;
      ok := true;
    }
  }

  /** Cuts out the ranges of one register. */
  method ExcludeMtrr(map_: SysMemMap, m: FixedMtrr, value: uint64, ghost c: Series, ghost past: seq<Range>)
    returns (ok: bool)
    requires map_.Valid() && FixedOk(m) && OnTrack(c, past, map_.region.Length, map_.region[..], map_.descNum)
    modifies map_`descNum, map_.region
    ensures map_.Valid()
    ensures var all := past + MtrrRanges(value, m.base, m.size, m.octets);
            if ok then OnTrack(c, all, map_.region.Length, map_.region[..], map_.descNum)
            else Stuck(c, all, map_.region.Length)
  {
    var base: nat, msr: nat := m.base, value;
    ghost var all, total := past, past + MtrrRanges(value, m.base, m.size, m.octets);
    for j := 0 to m.octets
      invariant map_.Valid() && base <= m.base + j * 0x10000
      invariant all + MtrrRanges(msr, base, m.size, m.octets - j) == total
      invariant OnTrack(c, all, map_.region.Length, map_.region[..], map_.descNum)
    {
      OneOctet(all, msr, base, m.size, m.octets - j);
      ok := ExcludeOctet(map_, msr, base, m.size, c, all);
      all := all + OctetRange(msr, base, m.size);
      base := base + m.size;
      msr := msr / 256;
      assert all + MtrrRanges(msr, base, m.size, m.octets - j - 1) == total;
      if !ok {
        StillStuck(c, all, MtrrRanges(msr, base, m.size, m.octets - j - 1), map_.region.Length);
        assert Stuck(c, total, map_.region.Length);
        return;
      }
    }
    NoOctets(all, msr, base, m.size);
    assert all == total && OnTrack(c, total, map_.region.Length, map_.region[..], map_.descNum);
    ok := true;
  }

  method ExcludeFixed(map_: SysMemMap, msrs: Msrs, table: seq<FixedMtrr>, ghost c: Series, ghost past: seq<Range>)
    returns (ok: bool)
    requires map_.Valid() && TableOk(table) && OnTrack(c, past, map_.region.Length, map_.region[..], map_.descNum)
    modifies map_`descNum, map_.region
    ensures map_.Valid()
    ensures Handled(c, past, FixedRanges(msrs, table, |table|), map_.region.Length, map_.region[..], map_.descNum, ok)
  {
    ghost var all := past;
    assert past + [] == past;
    var i := 0;
    while i < |table|
      invariant i <= |table| && map_.Valid() && FixedRanges(msrs, table, i).Some?
      invariant all == past + FixedRanges(msrs, table, i).value
      invariant OnTrack(c, all, map_.region.Length, map_.region[..], map_.descNum)
    {
      var m := table[i];
      var read := msrs(m.msr);
      ghost var rest := NextFixed(msrs, table, i, past);
      if read.None? {
        return false;
      }
      ok := ExcludeMtrr(map_, m, read.value, c, all);
      all := all + MtrrRanges(read.value, m.base, m.size, m.octets);
      if !ok {
        StillStuck(c, all, rest, map_.region.Length);
        return;
      }
      i := i + 1;
    }
    return true;
  }

  /** What is cut out of the map: the hole; then, once the registers are locked, high memory without its top
      register, the two IORRs, and the first megabyte as a whole or as the fixed-range registers say. */
  function HoleRanges(s: seq<MemDesc>, n: nat): seq<Range>
    requires n <= |s|
  {
    var k := LastHole(s, n);
    if k < 0 then [] else HoleRange(s, n)
  }

  function HoleRange(s: seq<MemDesc>, n: nat): (r: seq<Range>)
    requires n <= |s| && LastHole(s, n) >= 0
    ensures |r| == 1 && r[0].lo <= r[0].hi
  {
    HoleInside(s, n);
    var d := s[LastHole(s, n)];
    [if d.limit < d.base then Range(d.limit, d.base) else Range(d.base, d.limit)]
  }

  lemma {:induction false} HoleInside(s: seq<MemDesc>, n: nat)
    requires n <= |s|
    ensures -1 <= LastHole(s, n) < n && (LastHole(s, n) >= 0 ==> s[LastHole(s, n)].kind == MmioHole)
  {
    if n > 0 {
      HoleInside(s, n - 1);
    }
  }

  /** The hole: what lies between base and limit, in either order, of the last row that marks one. */
  ghost predicate InHole(rows: seq<MemDesc>, a: int) {
    exists k :: 0 <= k < |rows| && IsLastHole(rows, k) && Between(rows[k].base, rows[k].limit, a)
  }

  ghost predicate IsLastHole(rows: seq<MemDesc>, k: nat)
    requires k < |rows|
  {
    rows[k].kind == MmioHole && forall j :: k < j < |rows| ==> rows[j].kind != MmioHole
  }

  predicate Between(x: int, y: int, a: int) {
    x <= a <= y || y <= a <= x
  }

  lemma {:induction false} NoHoleBehind(s: seq<MemDesc>, n: nat, j: nat)
    requires n <= |s| && LastHole(s, n) < j < n
    ensures s[j].kind != MmioHole
  {
    if j < n - 1 {
      NoHoleBehind(s, n - 1, j);
    }
  }

  lemma HoleIs(rows: seq<MemDesc>, a: int)
    ensures InAny(HoleRanges(rows, |rows|), a) <==> InHole(rows, a)
  {
    var k := LastHole(rows, |rows|);
    HoleInside(rows, |rows|);
    forall j: nat | k < j < |rows|
      ensures rows[j].kind != MmioHole
    {
      NoHoleBehind(rows, |rows|, j);
    }
    if k >= 0 {
      InOne(HoleRange(rows, |rows|)[0], a);
      assert IsLastHole(rows, k);
    }
  }

  /** The table after merging and after cutting out the hole. */
  function HoleCut(rows: seq<MemDesc>, room: nat): Option<seq<MemDesc>> {
    ExcludeAll(CoalesceRows(rows, 0), HoleRanges(rows, |rows|), room)
  }

  /** Memory keeps below its tops and clear of MMIO. */
  ghost predicate Sound(rows: seq<MemDesc>, tom: int, tom2: int) {
    Below(rows, |rows|, tom, tom2) && NoMmioInMemory(rows, |rows|, |rows|)
  }

  /** The first phase is passed: there is room, and the table is sound. */
  ghost predicate FirstPassed(rows: seq<MemDesc>, room: nat, tom: int, tom2: int) {
    var r := HoleCut(rows, room);
    r.Some? && Sound(r.value, tom, tom2)
  }

  lemma {:induction false} HoleOfPrefix(s: seq<MemDesc>, t: seq<MemDesc>, n: nat)
    requires n <= |s| && n <= |t| && s[..n] == t[..n]
    ensures LastHole(s, n) == LastHole(t, n)
  {
    if n > 0 {
      assert s[..n - 1] == s[..n][..n - 1] && t[..n - 1] == t[..n][..n - 1];
      HoleOfPrefix(s, t, n - 1);
      assert s[..n][n - 1] == t[..n][n - 1];
    }
  }

  lemma SameHole(s: seq<MemDesc>, n: nat)
    requires n <= |s|
    ensures HoleRanges(s[..n], n) == HoleRanges(s, n)
  {
    HoleOfPrefix(s, s[..n], n);
    HoleInside(s, n);
  }

  lemma {:induction false} DramsOfPrefix(s: seq<MemDesc>, t: seq<MemDesc>, n: nat)
    requires n <= |s| && n <= |t| && s[..n] == t[..n]
    ensures Drams(s, n) == Drams(t, n)
  {
    if n > 0 {
      assert s[..n - 1] == s[..n][..n - 1] && t[..n - 1] == t[..n][..n - 1];
      DramsOfPrefix(s, t, n - 1);
      assert s[..n][n - 1] == t[..n][n - 1];
    }
  }

  /** Every address that merging loses is excluded anyway. */
  ghost predicate LossExcluded(lost: seq<MemDesc>, ranges: seq<Range>) {
    forall a :: Cover(lost, a) > 0 ==> InAny(ranges, a)
  }

  /**
   The map `s` with `m` entries after merging the rows and cutting out the ranges: the merged memory without the ranges.
   It covers nothing that the rows did not cover; and it is the memory of the rows without the ranges exactly when every
   address that merging loses is in the ranges.
  */
  ghost predicate Remains(rows: seq<MemDesc>, s: seq<MemDesc>, m: nat, ranges: seq<Range>)
    requires m <= |s|
  {
    && Without(CoalesceRows(rows, 0), |rows|, s, m, ranges)
    && (forall a :: Count(s, m, a) <= Cover(rows, a))
    && (Without(rows, |rows|, s, m, ranges) <==> LossExcluded(CoalesceLoss(rows, 0), ranges))
  }

  /** Where a table covers less, by `lost`, and the ranges are cut out of it. */
  lemma NoneMissing(rows: seq<MemDesc>, merged: seq<MemDesc>, lost: seq<MemDesc>, s: seq<MemDesc>, m: nat,
                    ranges: seq<Range>)
    requires |merged| == |rows| && m <= |s| && Without(merged, |rows|, s, m, ranges) && LossExcluded(lost, ranges)
    requires forall a :: Cover(rows, a) == Cover(merged, a) + Cover(lost, a)
    ensures Without(rows, |rows|, s, m, ranges)
  {
    forall a
      ensures Count(s, m, a) == if InAny(ranges, a) then 0 else Count(rows, |rows|, a)
    {
      assert Cover(rows, a) == Cover(merged, a) + Cover(lost, a);
    }
  }

  lemma SomeMissing(rows: seq<MemDesc>, merged: seq<MemDesc>, lost: seq<MemDesc>, s: seq<MemDesc>, m: nat,
                    ranges: seq<Range>, a: int)
    requires |merged| == |rows| && m <= |s| && Without(merged, |rows|, s, m, ranges)
    requires Cover(rows, a) == Cover(merged, a) + Cover(lost, a) && Cover(lost, a) > 0 && !InAny(ranges, a)
    ensures !Without(rows, |rows|, s, m, ranges)
  {
    assert Count(s, m, a) == Count(merged, |rows|, a);
  }

  lemma NoneGained(rows: seq<MemDesc>, merged: seq<MemDesc>, lost: seq<MemDesc>, s: seq<MemDesc>, m: nat,
                   ranges: seq<Range>, a: int)
    requires |merged| == |rows| && m <= |s| && Without(merged, |rows|, s, m, ranges)
    requires Cover(rows, a) == Cover(merged, a) + Cover(lost, a)
    ensures Count(s, m, a) <= Cover(rows, a)
  {
  }

  lemma WhatRemains(rows: seq<MemDesc>, merged: seq<MemDesc>, lost: seq<MemDesc>, s: seq<MemDesc>, m: nat,
                    ranges: seq<Range>)
    requires merged == CoalesceRows(rows, 0) && lost == CoalesceLoss(rows, 0)
    requires m <= |s| && Without(merged, |rows|, s, m, ranges)
    ensures Remains(rows, s, m, ranges)
  {
    forall a
      ensures Cover(rows, a) == Cover(merged, a) + Cover(lost, a)
    {
      CoalesceConserves(rows, 0, a);
    }
    forall a
      ensures Count(s, m, a) <= Cover(rows, a)
    {
      NoneGained(rows, merged, lost, s, m, ranges, a);
    }
    if LossExcluded(lost, ranges) {
      NoneMissing(rows, merged, lost, s, m, ranges);
    } else {
      var a :| Cover(lost, a) > 0 && !InAny(ranges, a);
      SomeMissing(rows, merged, lost, s, m, ranges, a);
    }
  }

  /** Cuts out the hole, if there is one. */
  method ExcludeHole(map_: SysMemMap, hole: int, ghost c: Series, ghost was: seq<MemDesc>, ghost n: nat)
    returns (ok: bool)
    requires map_.Valid() && n <= |was| && hole == LastHole(was, n) && hole < n && -1 <= hole < map_.descNum
    requires hole >= 0 ==> map_.region[hole] == was[hole]
    requires OnTrack(c, [], map_.region.Length, map_.region[..], map_.descNum)
    modifies map_`descNum, map_.region
    ensures map_.Valid()
    ensures var all := HoleRanges(was, n);
            if ok then OnTrack(c, all, map_.region.Length, map_.region[..], map_.descNum)
            else Stuck(c, all, map_.region.Length)
  {
    if hole < 0 {
      return true;
    }
    var d := map_.region[hole];
    var r := if d.limit < d.base then Range(d.limit, d.base) else Range(d.base, d.limit);
    ok := ExcludeRange(map_, r, c, []);
    assert HoleRanges(was, n) == [] + [r];
  }

  /** Merges, and cuts out the hole. */
  method MergeAndCut(map_: SysMemMap, ghost c: Series) returns (ok: bool)
    requires map_.Valid()
    requires c.start == CoalesceRows(map_.region[..map_.descNum], 0)
    requires c.was == c.start && c.n == map_.descNum && c.before == []
    modifies map_`descNum, map_.region
    ensures map_.Valid()
    ensures var all := HoleRanges(old(map_.region[..]), c.n);
            if ok then OnTrack(c, all, map_.region.Length, map_.region[..], map_.descNum)
            else Stuck(c, all, map_.region.Length)
  {
    ghost var was, n := map_.region[..], map_.descNum;
    var hole := Coalesce(map_);
    HoleInside(was, n);
    ghost var s := map_.region[..];
    assert c.before + [] == [] && s[..n] == map_.region[..n];
    SameRows(c.was, s, n);
    ok := ExcludeHole(map_, hole, c, was, n);
  }

  /** The checks of the first phase, and the compaction. */
  method CheckAndCompact(map_: SysMemMap) returns (ok: bool)
    requires map_.Valid()
    modifies map_`descNum, map_.region
    ensures map_.Valid()
    ensures ok == old(Sound(map_.region[..map_.descNum], map_.tom, map_.tom2))
    ensures ok ==> map_.region[..map_.descNum] == Drams(old(map_.region[..map_.descNum]), old(map_.descNum))
    ensures ok ==> SameCover(old(map_.region[..]), old(map_.descNum), map_.region[..], map_.descNum)
    ensures ok ==> Bounded(map_.region[..], map_.descNum, map_.tom, map_.tom2)
    ensures ok ==> forall k :: 0 <= k < map_.descNum ==> map_.region[k].kind == Dram
  {
    ghost var s, m := map_.region[..], map_.descNum;
    ghost var rows := map_.region[..m];
    assert forall k :: 0 <= k < m ==> rows[k] == s[k];
    ok := CheckTops(map_);
    if !ok {
      return;
    }
    ok := CheckMmio(map_);
    if !ok {
      return;
    }
    BelowIsBounded(s, m, map_.tom, map_.tom2);
    DramsOfPrefix(s, rows, m);
    Compact(map_);
  }

  /** The first phase: merge, cut out the hole, check, compact. */
  method PrepareMap(map_: SysMemMap, ghost was: seq<MemDesc>, ghost n: nat) returns (ok: bool)
    requires map_.Valid() && was == map_.region[..] && n == map_.descNum
    modifies map_`descNum, map_.region
    ensures map_.Valid()
    ensures ok <==> FirstPassed(was[..n], map_.region.Length, map_.tom, map_.tom2)
    ensures ok ==> map_.region[..map_.descNum] == AfterFirst(was[..n], map_.region.Length)
    ensures ok ==> Remains(was[..n], map_.region[..], map_.descNum, HoleRanges(was, n))
    ensures ok ==> Bounded(map_.region[..], map_.descNum, map_.tom, map_.tom2)
    ensures ok ==> forall k :: 0 <= k < map_.descNum ==> map_.region[k].kind == Dram
  {
    ghost var holes := HoleRanges(was, n);
    ghost var merged := CoalesceRows(was[..n], 0);
    ghost var c := Series(merged, n, [], merged);
    assert was[..n] == map_.region[..n];
    SameHole(was, n);
    ok := MergeAndCut(map_, c);
    if !ok {
      return;
    }
    assert [] + holes == holes;
    ghost var s, m := map_.region[..], map_.descNum;
    assert HasCut(c, holes, map_.region.Length, s, m);
    assert s[..m] == map_.region[..m];
    ok := CheckAndCompact(map_);
    if ok {
      WhatRemains(was[..n], merged, CoalesceLoss(was[..n], 0), map_.region[..], map_.descNum, holes);
    }
  }

  /** The rows that the first phase leaves. */
  function AfterFirst(rows: seq<MemDesc>, room: nat): seq<MemDesc> {
    var r := HoleCut(rows, room);
    if r.None? then [] else Drams(r.value, |r.value|)
  }

  method CheckIorr(map_: SysMemMap, msr: nat, msrs: Msrs, ghost c: Series, ghost past: seq<Range>) returns (ok: bool)
    requires map_.Valid() && OnTrack(c, past, map_.region.Length, map_.region[..], map_.descNum)
    modifies map_`descNum, map_.region
    ensures map_.Valid()
    ensures Handled(c, past, IorrRanges(msr, msrs), map_.region.Length, map_.region[..], map_.descNum, ok)
  {
    assert past + [] == past;
    var mask := msrs(msr + 1);
    if mask.None? {
      return false;
    }
    if mask.value / 0x800 % 2 == 0 {
      return true;
    }
    var base := msrs(msr);
    if base.None? {
      return false;
    }
    if base.value / 8 % 4 == 3 {
      return true;
    }
    var r := IorrSpan(base.value, MaskBits(mask.value));
    ok := ExcludeRange(map_, r, c, past);
  }

  method CheckTom2(map_: SysMemMap, msrs: Msrs, ghost c: Series, ghost past: seq<Range>) returns (ok: bool)
    requires map_.Valid() && OnTrack(c, past, map_.region.Length, map_.region[..], map_.descNum)
    modifies map_`descNum, map_.region
    ensures map_.Valid()
    ensures Handled(c, past, Tom2Ranges(msrs, map_.tom2), map_.region.Length, map_.region[..], map_.descNum, ok)
  {
    assert past + [] == past;
    if Tom2Enabled(SysCfg(msrs)) {
      return msrs(MSR_TOM2) == Some(map_.tom2);
    }
    ok := ExcludeRange(map_, Range(SIZE_4GB, PHYS_ADDR_MASK), c, past);
  }

  method ExcludeLow(map_: SysMemMap, msrs: Msrs, table: seq<FixedMtrr>, ghost c: Series, ghost past: seq<Range>)
    returns (ok: bool)
    requires map_.Valid() && TableOk(table) && OnTrack(c, past, map_.region.Length, map_.region[..], map_.descNum)
    modifies map_`descNum, map_.region
    ensures map_.Valid()
    ensures Handled(c, past, LowRanges(msrs, table), map_.region.Length, map_.region[..], map_.descNum, ok)
  {
    if !MtrrFixEnabled(SysCfg(msrs)) {
      ok := ExcludeRange(map_, Range(0, 0x10_0000 - 1), c, past);
    } else {
      ok := ExcludeFixed(map_, msrs, table, c, past);
    }
  }

  /** The two IORRs and the first megabyte. */
  method ExcludeMapped(map_: SysMemMap, msrs: Msrs, table: seq<FixedMtrr>, ghost c: Series, ghost past: seq<Range>)
    returns (ok: bool)
    requires map_.Valid() && TableOk(table) && OnTrack(c, past, map_.region.Length, map_.region[..], map_.descNum)
    modifies map_`descNum, map_.region
    ensures map_.Valid()
    ensures Handled(c, past, MappedRanges(msrs, table), map_.region.Length, map_.region[..], map_.descNum, ok)
  {
    ghost var r16, r18 := IorrRanges(MSR_IORR_BASE_16, msrs), IorrRanges(MSR_IORR_BASE_18, msrs);
    ghost var room, low := map_.region.Length, LowRanges(msrs, table);
    ok := CheckIorr(map_, MSR_IORR_BASE_16, msrs, c, past);
    if !ok {
      FailedEarly(c, past, r16, Joined(r18, low), room, map_.region[..], map_.descNum);
      return;
    }
    ghost var all := past + r16.value;
    ok := CheckIorr(map_, MSR_IORR_BASE_18, msrs, c, all);
    if ok {
      ok := ExcludeLow(map_, msrs, table, c, all + r18.value);
      HandledBoth(c, all, r18, low, room, map_.region[..], map_.descNum, ok);
    } else {
      FailedEarly(c, all, r18, low, room, map_.region[..], map_.descNum);
    }
    HandledBoth(c, past, r16, Joined(r18, low), room, map_.region[..], map_.descNum, ok);
  }

  /** Memory after the second phase: what there was, without what was cut out before, and without every address that
      the registers map away. */
  ghost predicate MappedOut(c: Series, msrs: Msrs, s: seq<MemDesc>, m: nat) {
    && c.n <= |c.was| && m <= |s|
    && forall a :: Count(s, m, a) == if InAny(c.before, a) || MapsAway(msrs, a) then 0 else Count(c.was, c.n, a)
  }

  lemma MappedOutIs(c: Series, msrs: Msrs, tom: uint64, tom2: uint64, room: nat, s: seq<MemDesc>, m: nat)
    requires TableOk(FIXED_MTRRS)
    requires Handled(c, [], LockedRanges(msrs, FIXED_MTRRS, tom, tom2), room, s, m, true)
    ensures RegistersKnown(msrs, tom, tom2) && MappedOut(c, msrs, s, m)
  {
    LockedIs(msrs, tom, tom2);
    var locked := LockedRanges(msrs, FIXED_MTRRS, tom, tom2).value;
    assert HasCut(c, [] + locked, room, s, m);
    assert [] + locked == locked;
    forall a
      ensures Count(s, m, a) == if InAny(c.before, a) || MapsAway(msrs, a) then 0 else Count(c.was, c.n, a)
    {
      InJoined(c.before, locked, a);
    }
  }

  /** The second phase: everything that the locked registers say. */
  method ApplyMsrs(map_: SysMemMap, msrs: Msrs, table: seq<FixedMtrr>, ghost c: Series) returns (ok: bool)
    requires map_.Valid() && TableOk(table) && OnTrack(c, [], map_.region.Length, map_.region[..], map_.descNum)
    modifies map_`descNum, map_.region
    ensures map_.Valid()
    ensures Handled(c, [], LockedRanges(msrs, table, map_.tom, map_.tom2), map_.region.Length, map_.region[..],
                    map_.descNum, ok)
    ensures ok && table == FIXED_MTRRS ==>
              RegistersKnown(msrs, map_.tom, map_.tom2) && MappedOut(c, msrs, map_.region[..], map_.descNum)
  {
    if msrs(MSR_TOP_MEM) != Some(map_.tom) {
      return false;
    }
    ghost var room, high, mapped := map_.region.Length, Tom2Ranges(msrs, map_.tom2), MappedRanges(msrs, table);
    ok := CheckTom2(map_, msrs, c, []);
    if !ok {
      FailedEarly(c, [], high, mapped, room, map_.region[..], map_.descNum);
      return;
    }
    ok := ExcludeMapped(map_, msrs, table, c, [] + high.value);
    HandledBoth(c, [], high, mapped, room, map_.region[..], map_.descNum, ok);
    if ok && table == FIXED_MTRRS {
      MappedOutIs(c, msrs, map_.tom, map_.tom2, room, map_.region[..], map_.descNum);
    }
  }

  /** When a map is delivered: the first phase is passed; and once the registers are locked, they can all be read,
      agree on the tops of memory, and leave room for what they cut out. */
  ghost predicate Delivered(rows: seq<MemDesc>, room: nat, tom: uint64, tom2: uint64, fetched: bool, msrs: Msrs) {
    && FirstPassed(rows, room, tom, tom2)
    && (fetched ==>
          && TableOk(FIXED_MTRRS) && LockedRanges(msrs, FIXED_MTRRS, tom, tom2).Some?
          && ExcludeAll(AfterFirst(rows, room), LockedRanges(msrs, FIXED_MTRRS, tom, tom2).value, room).Some?)
  }

  /** Everything that is cut out of a map that is delivered. */
  ghost function AllRanges(rows: seq<MemDesc>, tom: uint64, tom2: uint64, fetched: bool, msrs: Msrs): seq<Range>
    requires fetched ==> TableOk(FIXED_MTRRS) && LockedRanges(msrs, FIXED_MTRRS, tom, tom2).Some?
  {
    HoleRanges(rows, |rows|) + if fetched then LockedRanges(msrs, FIXED_MTRRS, tom, tom2).value else []
  }

  /** An address of the hole, or one that the registers, if fetched, map away. */
  ghost predicate TakenAway(rows: seq<MemDesc>, fetched: bool, msrs: Msrs, a: int) {
    InHole(rows, a) || (fetched && MapsAway(msrs, a))
  }

  /** The map `s` with `m` entries, told by addresses: nothing of what is taken away, and of the rest everything that
      merging does not lose. */
  ghost predicate LeftOver(rows: seq<MemDesc>, s: seq<MemDesc>, m: nat, fetched: bool, msrs: Msrs)
    requires m <= |s|
  {
    forall a ::
      if TakenAway(rows, fetched, msrs, a) then Count(s, m, a) == 0
      else Count(s, m, a) + Cover(CoalesceLoss(rows, 0), a) == Cover(rows, a)
  }

  lemma LeftOverAt(rows: seq<MemDesc>, merged: seq<MemDesc>, lost: seq<MemDesc>, s: seq<MemDesc>, m: nat,
                   ranges: seq<Range>, a: int)
    requires |merged| == |rows| && m <= |s| && Without(merged, |rows|, s, m, ranges)
    requires Cover(rows, a) == Cover(merged, a) + Cover(lost, a)
    ensures if InAny(ranges, a) then Count(s, m, a) == 0 else Count(s, m, a) + Cover(lost, a) == Cover(rows, a)
  {
  }

  lemma LeftOverIs(rows: seq<MemDesc>, s: seq<MemDesc>, m: nat, tom: uint64, tom2: uint64, fetched: bool, msrs: Msrs)
    requires TableOk(FIXED_MTRRS) && m <= |s|
    requires fetched ==> LockedRanges(msrs, FIXED_MTRRS, tom, tom2).Some?
    requires Remains(rows, s, m, AllRanges(rows, tom, tom2, fetched, msrs))
    ensures fetched ==> RegistersKnown(msrs, tom, tom2)
    ensures LeftOver(rows, s, m, fetched, msrs)
  {
    LockedIs(msrs, tom, tom2);
    var all, merged, lost := AllRanges(rows, tom, tom2, fetched, msrs), CoalesceRows(rows, 0), CoalesceLoss(rows, 0);
    forall a
      ensures if TakenAway(rows, fetched, msrs, a) then Count(s, m, a) == 0
              else Count(s, m, a) + Cover(lost, a) == Cover(rows, a)
    {
      AllIs(rows, tom, tom2, fetched, msrs, a);
      CoalesceConserves(rows, 0, a);
      LeftOverAt(rows, merged, lost, s, m, all, a);
    }
  }

  lemma AllIs(rows: seq<MemDesc>, tom: uint64, tom2: uint64, fetched: bool, msrs: Msrs, a: int)
    requires TableOk(FIXED_MTRRS) && (fetched ==> LockedRanges(msrs, FIXED_MTRRS, tom, tom2).Some?)
    ensures InAny(AllRanges(rows, tom, tom2, fetched, msrs), a) <==> TakenAway(rows, fetched, msrs, a)
  {
    HoleIs(rows, a);
    LockedIs(msrs, tom, tom2);
    var holes := HoleRanges(rows, |rows|);
    if fetched {
      InJoined(holes, LockedRanges(msrs, FIXED_MTRRS, tom, tom2).value, a);
    } else {
      assert holes + [] == holes;
    }
  }

  /** The final map is the initial memory, with neighbouring regions merged, without everything that was excluded, and
      nothing but memory. */
  method GetMemoryMap(map_: SysMemMap, msrsFetched: bool, msrs: Msrs) returns (ok: bool)
    modifies map_`descNum, map_.region
    ensures ok ==> old(map_.descNum) <= map_.region.Length
    ensures old(map_.descNum) <= map_.region.Length ==>
      (ok <==> Delivered(old(map_.region[..map_.descNum]), map_.region.Length, map_.tom, map_.tom2, msrsFetched, msrs))
    ensures ok ==>
      var rows := old(map_.region[..map_.descNum]);
      var all := AllRanges(rows, map_.tom, map_.tom2, msrsFetched, msrs);
      map_.Valid() && Remains(rows, map_.region[..], map_.descNum, all)
    ensures ok && msrsFetched ==> RegistersKnown(msrs, map_.tom, map_.tom2)
    ensures ok ==>
      LeftOver(old(map_.region[..map_.descNum]), map_.region[..], map_.descNum, msrsFetched, msrs)
    ensures ok ==> Bounded(map_.region[..], map_.descNum, map_.tom, map_.tom2)
    ensures ok ==> forall k :: 0 <= k < map_.descNum ==> map_.region[k].kind == Dram
  {
    if map_.region.Length < map_.descNum {
      return false;
    }
    ghost var was, n := map_.region[..], map_.descNum;
    ghost var rows, holes := map_.region[..n], HoleRanges(was, n);
    ghost var merged := CoalesceRows(rows, 0);
    assert was[..n] == rows;
    SameHole(was, n);
    ok := PrepareMap(map_, was, n);
    FixedTableOk();
    assert holes + [] == holes;
    if ok && msrsFetched {
      ok := ApplyAndCompact(map_, msrs, FIXED_MTRRS, Series(merged, n, holes, map_.region[..map_.descNum]));
    }
    if ok {
      WhatRemains(rows, merged, CoalesceLoss(rows, 0), map_.region[..], map_.descNum,
                  AllRanges(rows, map_.tom, map_.tom2, msrsFetched, msrs));
      LeftOverIs(rows, map_.region[..], map_.descNum, map_.tom, map_.tom2, msrsFetched, msrs);
    }
  }

  method ApplyAndCompact(map_: SysMemMap, msrs: Msrs, table: seq<FixedMtrr>, ghost c: Series) returns (ok: bool)
    requires map_.Valid() && TableOk(table) && c.n <= |c.was| && c.start == map_.region[..map_.descNum]
    requires Without(c.was, c.n, map_.region[..], map_.descNum, c.before)
    requires Bounded(map_.region[..], map_.descNum, map_.tom, map_.tom2)
    modifies map_`descNum, map_.region
    ensures map_.Valid()
    ensures ok <==> LockedRanges(msrs, table, map_.tom, map_.tom2).Some? &&
                    ExcludeAll(c.start, LockedRanges(msrs, table, map_.tom, map_.tom2).value, map_.region.Length).Some?
    ensures ok ==> Without(c.was, c.n, map_.region[..], map_.descNum,
                           c.before + LockedRanges(msrs, table, map_.tom, map_.tom2).value)
    ensures ok ==> Bounded(map_.region[..], map_.descNum, map_.tom, map_.tom2)
    ensures ok ==> forall k :: 0 <= k < map_.descNum ==> map_.region[k].kind == Dram
  {
    ghost var s, m := map_.region[..], map_.descNum;
    assert c.before + [] == c.before && s[..m] == c.start;
    ok := ApplyMsrs(map_, msrs, table, c);
    ghost var locked := LockedRanges(msrs, table, map_.tom, map_.tom2);
    if locked.Some? {
      assert [] + locked.value == locked.value;
    }
    if !ok {
      return;
    }
    assert HasCut(c, locked.value, map_.region.Length, map_.region[..], map_.descNum);
    Compact(map_);
    StillBounded(c.was, c.n, s, m, c.before, map_.region[..], map_.descNum, locked.value, map_.tom, map_.tom2);
  }
}
