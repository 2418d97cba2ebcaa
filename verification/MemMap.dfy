/** The map of reliable memory: regions are cut out of a bounded table, merged and compacted in place. */
module MemMap {
  import opened Word

  const SIZE_4GB: int := 0x1_0000_0000
  const CBIT: int := 0x8_0000_0000_0000

  datatype Kind = Dram | Mmio | MmioHole | Merged | Other

  datatype MemDesc = MemDesc(kind: Kind, base: uint64, limit: uint64)

  /** Whether a region is memory that covers an address. */
  function Hit(d: MemDesc, a: int): nat {
    if d.kind == Dram && d.base <= a <= d.limit then 1 else 0
  }

  /** How many of the first `n` regions cover an address. */
  function Count(s: seq<MemDesc>, n: nat, a: int): nat
    requires n <= |s|
  {
    if n == 0 then 0 else Count(s, n - 1, a) + Hit(s[n - 1], a)
  }

  lemma {:induction false} CountCong(s: seq<MemDesc>, t: seq<MemDesc>, n: nat, a: int)
    requires n <= |s| && n <= |t| && forall k :: 0 <= k < n ==> Hit(s[k], a) == Hit(t[k], a)
    ensures Count(s, n, a) == Count(t, n, a)
  {
    if n > 0 {
      CountCong(s, t, n - 1, a);
    }
  }

  lemma {:induction false} CountUpdate(s: seq<MemDesc>, n: nat, i: nat, d: MemDesc, a: int)
    requires i < n <= |s|
    ensures Count(s[i := d], n, a) + Hit(s[i], a) == Count(s, n, a) + Hit(d, a)
  {
    if i == n - 1 {
      CountCong(s, s[i := d], n - 1, a);
    } else {
      CountUpdate(s, n - 1, i, d, a);
    }
  }

  lemma {:induction false} CountZero(s: seq<MemDesc>, n: nat, a: int)
    requires n <= |s| && forall k :: 0 <= k < n ==> Hit(s[k], a) == 0
    ensures Count(s, n, a) == 0
  {
    if n > 0 {
      CountZero(s, n - 1, a);
    }
  }

  predicate Within(lo: int, hi: int, a: int) {
    lo <= a <= hi
  }

  /** The range lies strictly inside the region, so that cutting it out leaves two pieces. */
  predicate Splits(d: MemDesc, lo: int, hi: int) {
    d.kind == Dram && d.base < lo && hi < d.limit
  }

  function SplitCount(s: seq<MemDesc>, n: nat, lo: int, hi: int): nat
    requires n <= |s|
  {
    if n == 0 then 0 else SplitCount(s, n - 1, lo, hi) + if Splits(s[n - 1], lo, hi) then 1 else 0
  }

  lemma {:induction false} SplitCountMono(s: seq<MemDesc>, m: nat, n: nat, lo: int, hi: int)
    requires m <= n <= |s|
    ensures SplitCount(s, m, lo, hi) <= SplitCount(s, n, lo, hi)
    decreases n
  {
    if m < n {
      SplitCountMono(s, m, n - 1, lo, hi);
    }
  }

  /** Memory regions are not empty and end below the top of the address range. */
  ghost predicate WellFormed(s: seq<MemDesc>, n: nat)
    requires n <= |s|
  {
    forall k :: 0 <= k < n && s[k].kind == Dram ==> s[k].base <= s[k].limit < TWO_64 - 1
  }

  /** Every covered address lies below the top of memory, or between 4 GB and the top of high memory. */
  ghost predicate Below(s: seq<MemDesc>, n: nat, tom: int, tom2: int)
    requires n <= |s|
  {
    forall k :: 0 <= k < n && s[k].kind == Dram ==>
      if s[k].base < 0x1_0000_0000 then s[k].limit < tom else s[k].limit < tom2
  }

  /** What cutting a range out does to one region: the piece that stays in its place. */
  function Cut(d: MemDesc, lo: uint64, hi: uint64): MemDesc {
    if d.kind != Dram || hi < d.base || d.limit < lo then d
    else if lo <= d.base && d.limit <= hi then d.(kind := Mmio)
    else if lo <= d.base then d.(base := hi + 1)
    else d.(limit := lo - 1)
  }

  /** The piece behind the range, for a region that is split. */
  function Rest(d: MemDesc, hi: uint64): MemDesc
    requires hi < d.limit
  {
    MemDesc(Dram, hi + 1, d.limit)
  }

  /** The pieces behind the range, of all regions that are split. */
  function Rests(s: seq<MemDesc>, n: nat, lo: uint64, hi: uint64): (r: seq<MemDesc>)
    requires n <= |s|
    ensures |r| == SplitCount(s, n, lo, hi)
  {
    if n == 0 then []
    else Rests(s, n - 1, lo, hi) + if Splits(s[n - 1], lo, hi) then [Rest(s[n - 1], hi)] else []
  }

  /** The table after a range has been cut out: what is left of each region in its place, then the pieces behind. */
  function CutTable(t: seq<MemDesc>, lo: uint64, hi: uint64): (r: seq<MemDesc>)
    ensures |r| == |t| + SplitCount(t, |t|, lo, hi)
  {
    seq(|t|, k requires 0 <= k < |t| => Cut(t[k], lo, hi)) + Rests(t, |t|, lo, hi)
  }

  lemma {:induction false} SplitsOfPrefix(s: seq<MemDesc>, t: seq<MemDesc>, n: nat, lo: uint64, hi: uint64)
    requires n <= |s| && n <= |t| && s[..n] == t[..n]
    ensures SplitCount(s, n, lo, hi) == SplitCount(t, n, lo, hi) && Rests(s, n, lo, hi) == Rests(t, n, lo, hi)
  {
    if n > 0 {
      assert s[..n - 1] == s[..n][..n - 1] && t[..n - 1] == t[..n][..n - 1];
      SplitsOfPrefix(s, t, n - 1, lo, hi);
      assert s[..n][n - 1] == t[..n][n - 1];
    }
  }

  lemma CutHits(d: MemDesc, lo: uint64, hi: uint64, a: int)
    requires lo <= hi
    ensures Within(lo, hi, a) ==> Hit(Cut(d, lo, hi), a) == 0
    ensures !Within(lo, hi, a) && !Splits(d, lo, hi) ==> Hit(Cut(d, lo, hi), a) == Hit(d, a)
    ensures Splits(d, lo, hi) && !Within(lo, hi, a) ==> Hit(Cut(d, lo, hi), a) + Hit(Rest(d, hi), a) == Hit(d, a)
    ensures Splits(d, lo, hi) && Within(lo, hi, a) ==> Hit(Rest(d, hi), a) == 0
  {
  }

  class SysMemMap {
    /** The table; its length is the number of descriptors there is room for. */
    const region: array<MemDesc>
    var descNum: nat
    var tom: uint64
    var tom2: uint64

    ghost predicate Valid()
      reads this
    {
      descNum <= region.Length
    }

    constructor (region: array<MemDesc>, descNum: nat, tom: uint64, tom2: uint64)
      ensures this.region == region && this.descNum == descNum && this.tom == tom && this.tom2 == tom2
    {
      this.region, this.descNum, this.tom, this.tom2 := region, descNum, tom, tom2;
    }
  }

  /** Every region lies in a region of the table before. */
  ghost predicate Shrunk(was: seq<MemDesc>, n: nat, s: seq<MemDesc>, m: nat)
    requires n <= |was| && m <= |s|
  {
    forall k :: 0 <= k < m && s[k].kind == Dram ==> InsideSome(was, n, s[k])
  }

  ghost predicate InsideSome(was: seq<MemDesc>, n: nat, d: MemDesc)
    requires n <= |was|
  {
    && d.base <= d.limit
    && exists j :: 0 <= j < n && was[j].kind == Dram && was[j].base <= d.base && d.limit <= was[j].limit
  }

  /** The state while cutting [lo, hi] out of a table that held the `n` regions of `was`. */
  ghost predicate Cutting(was: seq<MemDesc>, n: nat, s: seq<MemDesc>, m: nat, i: nat, lo: uint64, hi: uint64)
    requires n <= |was|
  {
    && i <= m <= |s| == |was| && n <= m
    && m == n + SplitCount(was, if i < n then i else n, lo, hi)
    && (forall k :: 0 <= k < i ==> forall a :: Within(lo, hi, a) ==> Hit(s[k], a) == 0)
    && (forall k :: n <= k < m ==> s[k].kind == Dram && s[k].base == hi + 1)
    && (forall k :: 0 <= k < n ==> s[k] == if k < i then Cut(was[k], lo, hi) else was[k])
    && (forall a :: !Within(lo, hi, a) ==> Count(s, m, a) == Count(was, n, a))
    && (WellFormed(was, n) ==> Shrunk(was, n, s, m))
  }

  lemma CutInside(was: seq<MemDesc>, n: nat, d: MemDesc, lo: uint64, hi: uint64)
    requires n <= |was| && lo <= hi && (d.kind == Dram ==> InsideSome(was, n, d))
    ensures Cut(d, lo, hi).kind == Dram ==> InsideSome(was, n, Cut(d, lo, hi))
    ensures Splits(d, lo, hi) ==> InsideSome(was, n, Rest(d, hi))
  {
  }

  /** Cutting a region that is not split changes only its entry. */
  lemma CutStep(was: seq<MemDesc>, n: nat, s: seq<MemDesc>, m: nat, i: nat, lo: uint64, hi: uint64)
    requires n <= |was| && lo <= hi && Cutting(was, n, s, m, i, lo, hi) && i < m && !Splits(s[i], lo, hi)
    ensures Cutting(was, n, s[i := Cut(s[i], lo, hi)], m, i + 1, lo, hi)
  {
    var d := Cut(s[i], lo, hi);
    var t := s[i := d];
    forall a
      ensures !Within(lo, hi, a) ==> Count(t, m, a) == Count(was, n, a)
      ensures Within(lo, hi, a) ==> Hit(d, a) == 0
    {
      CutCover(s, m, i, lo, hi, a);
    }
    if WellFormed(was, n) {
      CutShrunk(was, n, s, m, i, lo, hi);
    }
  }

  lemma CutCover(s: seq<MemDesc>, m: nat, i: nat, lo: uint64, hi: uint64, a: int)
    requires lo <= hi && i < m <= |s| && !Splits(s[i], lo, hi)
    ensures !Within(lo, hi, a) ==> Count(s[i := Cut(s[i], lo, hi)], m, a) == Count(s, m, a)
    ensures Within(lo, hi, a) ==> Hit(Cut(s[i], lo, hi), a) == 0
  {
    CountUpdate(s, m, i, Cut(s[i], lo, hi), a);
    CutHits(s[i], lo, hi, a);
  }

  lemma CutShrunk(was: seq<MemDesc>, n: nat, s: seq<MemDesc>, m: nat, i: nat, lo: uint64, hi: uint64)
    requires n <= |was| && lo <= hi && i < m <= |s| && Shrunk(was, n, s, m)
    ensures Shrunk(was, n, s[i := Cut(s[i], lo, hi)], m)
  {
    CutInside(was, n, s[i], lo, hi);
  }

  lemma SplitCover(s: seq<MemDesc>, m: nat, i: nat, lo: uint64, hi: uint64, a: int)
    requires lo <= hi && i < m < |s| && Splits(s[i], lo, hi) && !Within(lo, hi, a)
    ensures Count(s[m := Rest(s[i], hi)][i := Cut(s[i], lo, hi)], m + 1, a) == Count(s, m, a)
  {
    var d, e := Cut(s[i], lo, hi), Rest(s[i], hi);
    var u := s[m := e];
    CountCong(s, u, m, a);
    CountUpdate(u, m + 1, i, d, a);
    CutHits(s[i], lo, hi, a);
  }

  /** The rows after splitting a region, one by one. */
  lemma SplitRows(was: seq<MemDesc>, n: nat, s: seq<MemDesc>, m: nat, i: nat, lo: uint64, hi: uint64,
                  t: seq<MemDesc>)
    requires n <= |was| && lo <= hi && Cutting(was, n, s, m, i, lo, hi) && i < m < |s| && Splits(s[i], lo, hi)
    requires t == s[m := Rest(s[i], hi)][i := Cut(s[i], lo, hi)]
    ensures i < n && forall k :: 0 <= k < n ==> t[k] == if k < i + 1 then Cut(was[k], lo, hi) else was[k]
    ensures forall k :: n <= k < m + 1 ==> t[k].kind == Dram && t[k].base == hi + 1
  {
  }

  /** Splitting a region adds an entry behind the table. */
  lemma SplitStep(was: seq<MemDesc>, n: nat, s: seq<MemDesc>, m: nat, i: nat, lo: uint64, hi: uint64,
                  t: seq<MemDesc>)
    requires n <= |was| && lo <= hi && Cutting(was, n, s, m, i, lo, hi) && i < m < |s| && Splits(s[i], lo, hi)
    requires t == s[m := Rest(s[i], hi)][i := Cut(s[i], lo, hi)]
    ensures Cutting(was, n, t, m + 1, i + 1, lo, hi)
  {
    SplitRows(was, n, s, m, i, lo, hi, t);
    forall a | !Within(lo, hi, a)
      ensures Count(t, m + 1, a) == Count(was, n, a)
    {
      SplitCover(s, m, i, lo, hi, a);
    }
    forall k, a | 0 <= k < i + 1 && Within(lo, hi, a)
      ensures Hit(t[k], a) == 0
    {
      if k == i {
        CutHits(s[i], lo, hi, a);
      }
    }
    if WellFormed(was, n) {
      SplitShrunk(was, n, s, m, i, lo, hi, t);
    }
  }

  lemma SplitShrunk(was: seq<MemDesc>, n: nat, s: seq<MemDesc>, m: nat, i: nat, lo: uint64, hi: uint64,
                    t: seq<MemDesc>)
    requires n <= |was| && lo <= hi && i < m < |s| && Splits(s[i], lo, hi) && Shrunk(was, n, s, m)
    requires t == s[m := Rest(s[i], hi)][i := Cut(s[i], lo, hi)]
    ensures Shrunk(was, n, t, m + 1)
  {
    CutInside(was, n, s[i], lo, hi);
  }

  /** Every covered address is below the top of memory, or from 4 GB on below the top of high memory. */
  ghost predicate Bounded(s: seq<MemDesc>, n: nat, tom: int, tom2: int)
    requires n <= |s|
  {
    forall a :: Count(s, n, a) > 0 ==> a < tom || SIZE_4GB <= a < tom2
  }

  lemma BelowIsBounded(s: seq<MemDesc>, n: nat, tom: int, tom2: int)
    requires n <= |s| && Below(s, n, tom, tom2)
    ensures Bounded(s, n, tom, tom2)
  {
    forall a | Count(s, n, a) > 0
      ensures a < tom || SIZE_4GB <= a < tom2
    {
      var k := HitSomewhere(s, n, a);
    }
  }

  lemma {:induction false} HitSomewhere(s: seq<MemDesc>, n: nat, a: int) returns (k: nat)
    requires n <= |s| && Count(s, n, a) > 0
    ensures k < n && Hit(s[k], a) == 1
  {
    if Hit(s[n - 1], a) == 1 {
      k := n - 1;
    } else {
      k := HitSomewhere(s, n - 1, a);
    }
  }

  /** The entries behind the table are the pieces of the regions that have been split. */
  ghost predicate Behind(was: seq<MemDesc>, n: nat, s: seq<MemDesc>, m: nat, i: nat, lo: uint64, hi: uint64)
    requires n <= |was|
  {
    n <= m <= |s| && s[n..m] == Rests(was, if i < n then i else n, lo, hi)
  }

  lemma BehindStep(was: seq<MemDesc>, n: nat, s: seq<MemDesc>, m: nat, i: nat, lo: uint64, hi: uint64,
                   t: seq<MemDesc>, l: nat)
    requires n <= |was| && lo <= hi && Cutting(was, n, s, m, i, lo, hi) && i < m <= |s|
    requires RegionCut(s, m, i, lo, hi, t, l, true) && Behind(was, n, s, m, i, lo, hi)
    ensures Behind(was, n, t, l, i + 1, lo, hi)
  {
    if i < n {
      assert s[i] == was[i];
      if Splits(s[i], lo, hi) {
        assert t[n..l] == s[n..m] + [Rest(s[i], hi)];
      } else {
        assert t[n..l] == s[n..m];
      }
    } else {
      assert s[i].base == hi + 1;
      assert t == s;
    }
  }

  /** The finished table, by its rows. */
  lemma FinishedRows(was: seq<MemDesc>, n: nat, s: seq<MemDesc>, m: nat, lo: uint64, hi: uint64)
    requires n <= |was| && Cutting(was, n, s, m, m, lo, hi) && Behind(was, n, s, m, m, lo, hi)
    ensures s[..m] == CutTable(was[..n], lo, hi)
  {
    SplitsOfPrefix(was, was[..n], n, lo, hi);
    var r := CutTable(was[..n], lo, hi);
    assert s[..m] == s[..n] + s[n..m];
    forall k | 0 <= k < n
      ensures s[..n][k] == r[k]
    {
      assert s[k] == Cut(was[k], lo, hi);
    }
    assert r[n..] == Rests(was, n, lo, hi);
    assert s[..n] == r[..n];
  }

  /** Memory in the table after a range has been cut out. */
  ghost predicate Excluded(was: seq<MemDesc>, n: nat, s: seq<MemDesc>, m: nat, lo: int, hi: int)
    requires n <= |was| && m <= |s|
  {
    forall a :: Count(s, m, a) == if Within(lo, hi, a) then 0 else Count(was, n, a)
  }

  /** What the treatment of region `i` does to the table `s` of `m` entries. */
  ghost predicate RegionCut(s: seq<MemDesc>, m: nat, i: nat, lo: uint64, hi: uint64, t: seq<MemDesc>, l: nat, ok: bool)
    requires i < m <= |s|
  {
    && ok == (Splits(s[i], lo, hi) ==> m < |s|)
    && (!ok ==> t == s && l == m)
    && (!Splits(s[i], lo, hi) ==> t == s[i := Cut(s[i], lo, hi)] && l == m)
    && (Splits(s[i], lo, hi) && m < |s| ==> t == s[m := Rest(s[i], hi)][i := Cut(s[i], lo, hi)] && l == m + 1)
  }

  /** The treatment of one region; it fails when a region has to be split and the table is full. */
  method CutRegion(map_: SysMemMap, i: nat, lo: uint64, hi: uint64) returns (ok: bool)
    requires map_.Valid() && i < map_.descNum && lo <= hi
    modifies map_`descNum, map_.region
    ensures map_.Valid()
    ensures RegionCut(old(map_.region[..]), old(map_.descNum), i, lo, hi, map_.region[..], map_.descNum, ok)
  {
    ghost var s := map_.region[..];
    var d := map_.region[i];
    if d.kind != Dram || hi < d.base || d.limit < lo {
      assert s[i := d] == s;
      return true;
    }
    if lo <= d.base && d.limit <= hi {
      map_.region[i] := d.(kind := Mmio);
    } else if lo <= d.base && hi < d.limit {
      map_.region[i] := d.(base := hi + 1);
    } else if d.base < lo && d.limit <= hi {
      map_.region[i] := d.(limit := lo - 1);
    } else if d.base < lo && hi < d.limit {
      if map_.descNum >= map_.region.Length {
        return false;
      }
      map_.region[map_.descNum] := MemDesc(Dram, hi + 1, d.limit);
      map_.descNum := map_.descNum + 1;
      map_.region[i] := d.(limit := lo - 1);
    } else {
      assert false;
    }
    return true;
  }

  /** What holds when a range has been cut out, or when there was no room for the pieces. */
  ghost predicate CutOut(was: seq<MemDesc>, n: nat, s: seq<MemDesc>, m: nat, lo: uint64, hi: uint64, ok: bool)
    requires n <= |was| && m <= |s|
  {
    && (ok <==> n + SplitCount(was, n, lo, hi) <= |was|)
    && (ok ==> Excluded(was, n, s, m, lo, hi) && s[..m] == CutTable(was[..n], lo, hi))
    && (forall a :: !Within(lo, hi, a) ==> Count(s, m, a) == Count(was, n, a))
    && (WellFormed(was, n) ==> Shrunk(was, n, s, m))
  }

  /** What the treatment of region `i` contributes to cutting out the range. */
  lemma RegionDone(was: seq<MemDesc>, n: nat, s: seq<MemDesc>, m: nat, i: nat, lo: uint64, hi: uint64,
                   t: seq<MemDesc>, l: nat)
    requires n <= |was| && lo <= hi && Cutting(was, n, s, m, i, lo, hi) && i < m <= |s|
    requires RegionCut(s, m, i, lo, hi, t, l, true)
    ensures Cutting(was, n, t, l, i + 1, lo, hi)
  {
    if !Splits(s[i], lo, hi) {
      CutStep(was, n, s, m, i, lo, hi);
    } else {
      SplitStep(was, n, s, m, i, lo, hi, s[m := Rest(s[i], hi)][i := Cut(s[i], lo, hi)]);
    }
  }

  /** The table was full: nothing has changed. */
  lemma RegionFull(was: seq<MemDesc>, n: nat, s: seq<MemDesc>, m: nat, i: nat, lo: uint64, hi: uint64,
                   t: seq<MemDesc>, l: nat)
    requires n <= |was| && lo <= hi && Cutting(was, n, s, m, i, lo, hi) && i < m <= |s|
    requires RegionCut(s, m, i, lo, hi, t, l, false)
    ensures l <= |t| && CutOut(was, n, t, l, lo, hi, false)
  {
    TableFull(was, n, s, i, lo, hi);
  }

  lemma CutComplete(was: seq<MemDesc>, n: nat, s: seq<MemDesc>, m: nat, lo: uint64, hi: uint64)
    requires n <= |was| && Cutting(was, n, s, m, m, lo, hi) && Behind(was, n, s, m, m, lo, hi)
    ensures CutOut(was, n, s, m, lo, hi, true)
  {
    FinishedRows(was, n, s, m, lo, hi);
    forall a | Within(lo, hi, a)
      ensures Count(s, m, a) == 0
    {
      CountZero(s, m, a);
    }
  }

  /** The loop over the table, which grows while pieces are added. */
  method CutRegions(map_: SysMemMap, lo: uint64, hi: uint64) returns (ok: bool)
    requires map_.Valid() && lo <= hi
    modifies map_`descNum, map_.region
    ensures map_.Valid()
    ensures CutOut(old(map_.region[..]), old(map_.descNum), map_.region[..], map_.descNum, lo, hi, ok)
  {
    ghost var was, n := map_.region[..], map_.descNum;
    var i := 0;
    while i < map_.descNum
      invariant map_.Valid() && i <= map_.descNum && n <= |was| == map_.region.Length
      invariant Cutting(was, n, map_.region[..], map_.descNum, i, lo, hi)
      invariant Behind(was, n, map_.region[..], map_.descNum, i, lo, hi)
      decreases map_.region.Length - i
    {
      ghost var s, m := map_.region[..], map_.descNum;
      ok := CutRegion(map_, i, lo, hi);
      if !ok {
        RegionFull(was, n, s, m, i, lo, hi, map_.region[..], map_.descNum);
        return;
      }
      RegionDone(was, n, s, m, i, lo, hi, map_.region[..], map_.descNum);
      BehindStep(was, n, s, m, i, lo, hi, map_.region[..], map_.descNum);
      i := i + 1;
    }
    CutComplete(was, n, map_.region[..], map_.descNum, lo, hi);
    return true;
  }

  /** Cuts a range out of the map of memory. It works exactly as long as the table has room for the pieces. */
  method ExcludeFromMemMap(map_: SysMemMap, from: uint64, to: uint64) returns (ok: bool)
    requires map_.Valid()
    modifies map_`descNum, map_.region
    ensures map_.Valid()
    ensures var lo, hi := if to < from then to else from, if to < from then from else to;
            CutOut(old(map_.region[..]), old(map_.descNum), map_.region[..], map_.descNum, lo, hi, ok)
  {
    var lo, hi := if to < from then to else from, if to < from then from else to;
    ok := CutRegions(map_, lo, hi);
  }

  /** A split with a full table means that there was never room for all the pieces. */
  lemma TableFull(was: seq<MemDesc>, n: nat, s: seq<MemDesc>, i: nat, lo: uint64, hi: uint64)
    requires n <= |was| && lo <= hi && Cutting(was, n, s, |s|, i, lo, hi) && i < |s| && Splits(s[i], lo, hi)
    ensures n + SplitCount(was, n, lo, hi) > |was|
  {
    assert i < n;
    SplitCountMono(was, i + 1, n, lo, hi);
  }

  /** The same addresses are covered, equally often. */
  ghost predicate SameCover(was: seq<MemDesc>, n: nat, s: seq<MemDesc>, m: nat)
    requires n <= |was| && m <= |s|
  {
    forall a :: Count(s, m, a) == Count(was, n, a)
  }

  // Checking and compacting

  /** Every memory region lies below the top of memory on its side of 4 GB. */
  method CheckTops(map_: SysMemMap) returns (ok: bool)
    requires map_.Valid()
    ensures ok <==> Below(map_.region[..], map_.descNum, map_.tom, map_.tom2)
  {
    for i := 0 to map_.descNum
      invariant Below(map_.region[..], i, map_.tom, map_.tom2)
    {
      var d := map_.region[i];
      if d.kind == Dram && !(d.base < SIZE_4GB && d.limit < map_.tom)
         && !(d.base >= SIZE_4GB && d.limit < map_.tom2) {
        return false;
      }
    }
    return true;
  }

  /** An address without the encryption bit. */
  function ClearCBit(a: uint64): uint64 {
    if a / CBIT % 2 == 1 then a - CBIT else a
  }

  predicate RangesOverlap(start1: uint64, end1: uint64, start2: uint64, end2: uint64) {
    ClearCBit(start1) <= ClearCBit(end2) && ClearCBit(start2) <= ClearCBit(end1)
  }

  ghost predicate NoMmioInMemory(s: seq<MemDesc>, n: nat, m: nat)
    requires n <= |s| && m <= |s|
  {
    forall i, j :: 0 <= i < n && 0 <= j < m && s[i].kind == Mmio && s[j].kind == Dram ==>
      !RangesOverlap(s[i].base, s[i].limit, s[j].base, s[j].limit)
  }

  method CheckMmio(map_: SysMemMap) returns (ok: bool)
    requires map_.Valid()
    ensures ok <==> NoMmioInMemory(map_.region[..], map_.descNum, map_.descNum)
  {
    for i := 0 to map_.descNum
      invariant NoMmioInMemory(map_.region[..], i, map_.descNum)
    {
      if map_.region[i].kind == Mmio {
        for j := 0 to map_.descNum
          invariant NoMmioInMemory(map_.region[..], i, map_.descNum)
          invariant forall k :: 0 <= k < j && map_.region[k].kind == Dram ==>
            !RangesOverlap(map_.region[i].base, map_.region[i].limit, map_.region[k].base, map_.region[k].limit)
        {
          if map_.region[j].kind == Dram &&
             RangesOverlap(map_.region[i].base, map_.region[i].limit, map_.region[j].base, map_.region[j].limit) {
            return false;
          }
        }
      }
    }
    return true;
  }

  /** The memory regions among the first n, in order. */
  function Drams(s: seq<MemDesc>, n: nat): (r: seq<MemDesc>)
    requires n <= |s|
    ensures |r| <= n
  {
    if n == 0 then [] else Drams(s, n - 1) + if s[n - 1].kind == Dram then [s[n - 1]] else []
  }

  lemma {:induction false} DramsCover(s: seq<MemDesc>, n: nat, a: int)
    requires n <= |s|
    ensures Count(Drams(s, n), |Drams(s, n)|, a) == Count(s, n, a)
  {
    if n > 0 {
      DramsCover(s, n - 1, a);
      var t := Drams(s, n - 1);
      CountCong(Drams(s, n), t, |t|, a);
    }
  }

  lemma {:induction false} DramsInside(s: seq<MemDesc>, n: nat, k: nat) returns (j: nat)
    requires n <= |s| && k < |Drams(s, n)|
    ensures j < n && s[j] == Drams(s, n)[k] && s[j].kind == Dram
  {
    if k < |Drams(s, n - 1)| {
      j := DramsInside(s, n - 1, k);
    } else {
      j := n - 1;
    }
  }

  /** What holds of a table that starts with the memory regions of another. */
  lemma DramsDone(was: seq<MemDesc>, n: nat, s: seq<MemDesc>, m: nat)
    requires n <= |was| && m <= |s| && s[..m] == Drams(was, n)
    ensures SameCover(was, n, s, m)
    ensures forall k :: 0 <= k < m ==> s[k].kind == Dram
    ensures WellFormed(was, n) ==> Shrunk(was, n, s, m)
  {
    forall a
      ensures Count(s, m, a) == Count(was, n, a)
    {
      DramsCover(was, n, a);
      CountCong(s, Drams(was, n), m, a);
    }
    forall k | 0 <= k < m
      ensures s[k].kind == Dram && (WellFormed(was, n) ==> InsideSome(was, n, s[k]))
    {
      var j := DramsInside(was, n, k);
      assert s[..m][k] == s[k];
    }
  }

  /** Throws out everything but memory. */
  method Compact(map_: SysMemMap)
    requires map_.Valid()
    modifies map_`descNum, map_.region
    ensures map_.Valid() && map_.region[..map_.descNum] == Drams(old(map_.region[..]), old(map_.descNum))
    ensures SameCover(old(map_.region[..]), old(map_.descNum), map_.region[..], map_.descNum)
    ensures forall k :: 0 <= k < map_.descNum ==> map_.region[k].kind == Dram
    ensures old(WellFormed(map_.region[..], map_.descNum)) ==>
              Shrunk(old(map_.region[..]), old(map_.descNum), map_.region[..], map_.descNum)
  {
    ghost var was := map_.region[..];
    var next, n := 0, map_.descNum;
    for i := 0 to n
      invariant map_.descNum == n && next <= i && map_.region[..next] == Drams(was, i)
      invariant forall k :: i <= k < map_.region.Length ==> map_.region[k] == was[k]
    {
      if map_.region[i].kind == Dram {
        if next != i {
          map_.region[next] := map_.region[i];
        }
        next := next + 1;
      }
    }
    map_.descNum := next;
    DramsDone(was, n, map_.region[..], next);
  }
}
