/** Merging neighbouring regions of the map of memory, and what merging loses. */
module MemMerge {
  import opened Word
  import opened MemMap

  /** The last region that marks the hole below 4 GB, if any. */
  function LastHole(s: seq<MemDesc>, n: nat): int
    requires n <= |s|
  {
    if n == 0 then -1 else if s[n - 1].kind == MmioHole then n - 1 else LastHole(s, n - 1)
  }

  /** Only memory regions have changed. */
  ghost predicate OthersKept(was: seq<MemDesc>, s: seq<MemDesc>) {
    && |s| == |was|
    && forall k :: 0 <= k < |s| ==>
         if was[k].kind == Dram then s[k].kind == Dram || s[k].kind == Merged else s[k] == was[k]
  }

  function MergedDesc(): MemDesc {
    MemDesc(Merged, TWO_64 - 1, TWO_64 - 1)
  }

  /** The address behind a region; it wraps around at the top of the address range. */
  function NextBase(d: MemDesc): uint64 {
    (d.limit + 1) % TWO_64
  }

  /** Region `i` takes over the limit of region `j`, which is marked as merged. */
  function JoinedRows(t: seq<MemDesc>, i: nat, j: nat): (r: seq<MemDesc>)
    requires i < |t| && j < |t|
    ensures |r| == |t|
  {
    t[i := t[i].(limit := t[j].limit)][j := MergedDesc()]
  }

  /** Joins to region `i`, which ends before `next`, the regions from entry `j` on that start right behind it. */
  function MergeRows(t: seq<MemDesc>, i: nat, next: uint64, j: nat): (r: seq<MemDesc>)
    requires i < |t| && j <= |t|
    ensures |r| == |t|
    decreases |t| - j
  {
    if j == |t| then t
    else if t[j].kind == Dram && next == t[j].base then MergeRows(JoinedRows(t, i, j), i, NextBase(t[j]), j + 1)
    else MergeRows(t, i, next, j + 1)
  }

  /** Does so for the region at entry `i`, if there is one. */
  function MergeAt(t: seq<MemDesc>, i: nat): (r: seq<MemDesc>)
    requires i < |t|
    ensures |r| == |t|
  {
    if t[i].kind == Dram then MergeRows(t, i, NextBase(t[i]), 0) else t
  }

  /** Does so for each region from entry `i` on. */
  function CoalesceRows(t: seq<MemDesc>, i: nat): (r: seq<MemDesc>)
    requires i <= |t|
    ensures |r| == |t|
    decreases |t| - i
  {
    if i == |t| then t else CoalesceRows(MergeAt(t, i), i + 1)
  }

  // What is lost

  /** Whether a region covers anything. */
  predicate NonEmpty(d: MemDesc) {
    d.kind == Dram && d.base <= d.limit
  }

  /** The end of a region that an empty or wrapped-around neighbour cuts off. */
  function LostEnd(d: MemDesc, e: MemDesc): (r: seq<MemDesc>)
    ensures forall k :: 0 <= k < |r| ==> NonEmpty(r[k])
  {
    if d.base <= d.limit && e.limit < d.limit then
      [MemDesc(Dram, if d.base <= e.limit then e.limit + 1 else d.base, d.limit)]
    else []
  }

  /** The start of a neighbour that is lost, because it wraps around or the region is empty and starts higher up. */
  function LostStart(d: MemDesc, e: MemDesc): (r: seq<MemDesc>)
    ensures forall k :: 0 <= k < |r| ==> NonEmpty(r[k])
  {
    if e.limit < e.base then []
    else if d.limit + 1 == TWO_64 then [MemDesc(Dram, e.base, e.limit)]
    else if d.limit < d.base && e.base < d.base then
      [MemDesc(Dram, e.base, if d.base <= e.limit then d.base - 1 else e.limit)]
    else []
  }

  /** What joining region `j` to region `i` loses; a region that has been merged already takes nothing over. */
  function JoinLoss(t: seq<MemDesc>, i: nat, j: nat): (r: seq<MemDesc>)
    requires i < |t| && j < |t|
    ensures forall k :: 0 <= k < |r| ==> NonEmpty(r[k])
  {
    if i != j && t[i].kind == Dram then LostEnd(t[i], t[j]) + LostStart(t[i], t[j])
    else if NonEmpty(t[j]) then [t[j]]
    else []
  }

  /** What the joins of `MergeRows` lose. */
  function MergeLoss(t: seq<MemDesc>, i: nat, next: uint64, j: nat): (r: seq<MemDesc>)
    requires i < |t| && j <= |t|
    ensures forall k :: 0 <= k < |r| ==> NonEmpty(r[k])
    decreases |t| - j
  {
    if j == |t| then []
    else if t[j].kind == Dram && next == t[j].base then
      JoinLoss(t, i, j) + MergeLoss(JoinedRows(t, i, j), i, NextBase(t[j]), j + 1)
    else MergeLoss(t, i, next, j + 1)
  }

  /** What the joins of `CoalesceRows` lose. */
  function CoalesceLoss(t: seq<MemDesc>, i: nat): (r: seq<MemDesc>)
    requires i <= |t|
    ensures forall k :: 0 <= k < |r| ==> NonEmpty(r[k])
    decreases |t| - i
  {
    if i == |t| then []
    else (if t[i].kind == Dram then MergeLoss(t, i, NextBase(t[i]), 0) else []) + CoalesceLoss(MergeAt(t, i), i + 1)
  }

  /** How often the regions cover an address. */
  function Cover(s: seq<MemDesc>, a: int): nat {
    Count(s, |s|, a)
  }

  lemma {:induction false} CoverSum(s: seq<MemDesc>, t: seq<MemDesc>, a: int)
    ensures Cover(s + t, a) == Cover(s, a) + Cover(t, a)
  {
    if t == [] {
      assert s + t == s;
    } else {
      var front := t[..|t| - 1];
      CoverSum(s, front, a);
      CountCong(s + t, s + front, |s + front|, a);
      CountCong(t, front, |front|, a);
    }
  }

  lemma CoverOne(d: MemDesc, a: int)
    ensures Cover([d], a) == Hit(d, a)
  {
    assert Count([d], 0, a) == 0;
  }

  /** Two neighbours: what they cover is what they cover when joined, and what is lost. */
  lemma NeighboursKept(d: MemDesc, e: MemDesc, a: int)
    requires d.kind == Dram && e.kind == Dram && e.base == NextBase(d)
    ensures Hit(d, a) + Hit(e, a) == Hit(d.(limit := e.limit), a) + Cover(LostEnd(d, e), a) + Cover(LostStart(d, e), a)
  {
    if LostEnd(d, e) != [] {
      CoverOne(LostEnd(d, e)[0], a);
    }
    if LostStart(d, e) != [] {
      CoverOne(LostStart(d, e)[0], a);
    }
  }

  /** Joining region `e` to region `d` is harmless: no wrap-around, and no empty region with a limit that is too low. */
  predicate Harmless(d: MemDesc, e: MemDesc) {
    && d.limit + 1 < TWO_64
    && if d.base <= d.limit then e.limit >= d.limit
       else if e.base <= e.limit then d.base == d.limit + 1
       else e.limit < d.base
  }

  /** Joining keeps what the two regions cover exactly when it is harmless, that is when it loses no region. */
  lemma JoinKeeps(d: MemDesc, e: MemDesc)
    requires d.kind == Dram && e.kind == Dram && e.base == NextBase(d)
    ensures Harmless(d, e) <==> LostEnd(d, e) == [] && LostStart(d, e) == []
    ensures Harmless(d, e) <==> forall a :: Hit(d.(limit := e.limit), a) == Hit(d, a) + Hit(e, a)
  {
    var joined := d.(limit := e.limit);
    if d.limit + 1 == TWO_64 {
      assert Hit(joined, d.limit) != Hit(d, d.limit) + Hit(e, d.limit);
    } else if !Harmless(d, e) {
      var a := if d.base <= d.limit then d.limit else if e.base <= e.limit then e.base else d.base;
      assert Hit(joined, a) != Hit(d, a) + Hit(e, a);
    }
  }

  /** One join, in a table: nothing is gained, and the loss is what `JoinLoss` says. */
  lemma JoinConserves(t: seq<MemDesc>, i: nat, j: nat, a: int)
    requires i < |t| && j < |t| && t[j].kind == Dram && (t[i].kind == Dram ==> t[j].base == NextBase(t[i]))
    ensures Cover(t, a) == Cover(JoinedRows(t, i, j), a) + Cover(JoinLoss(t, i, j), a)
  {
    var d := t[i].(limit := t[j].limit);
    CountUpdate(t, |t|, i, d, a);
    CountUpdate(t[i := d], |t|, j, MergedDesc(), a);
    if i != j && t[i].kind == Dram {
      NeighboursKept(t[i], t[j], a);
      CoverSum(LostEnd(t[i], t[j]), LostStart(t[i], t[j]), a);
    } else if NonEmpty(t[j]) {
      CoverOne(t[j], a);
    }
  }

  lemma {:induction false} MergeConserves(t: seq<MemDesc>, i: nat, next: uint64, j: nat, a: int)
    requires i < |t| && j <= |t| && (t[i].kind == Dram ==> next == NextBase(t[i]))
    ensures Cover(t, a) == Cover(MergeRows(t, i, next, j), a) + Cover(MergeLoss(t, i, next, j), a)
    decreases |t| - j
  {
    if j < |t| {
      if t[j].kind == Dram && next == t[j].base {
        JoinConserves(t, i, j, a);
        MergeConserves(JoinedRows(t, i, j), i, NextBase(t[j]), j + 1, a);
        CoverSum(JoinLoss(t, i, j), MergeLoss(JoinedRows(t, i, j), i, NextBase(t[j]), j + 1), a);
      } else {
        MergeConserves(t, i, next, j + 1, a);
      }
    }
  }

  /** For every table: merging gains nothing, and loses what `CoalesceLoss` says. */
  lemma {:induction false} CoalesceConserves(t: seq<MemDesc>, i: nat, a: int)
    requires i <= |t|
    ensures Cover(t, a) == Cover(CoalesceRows(t, i), a) + Cover(CoalesceLoss(t, i), a)
    decreases |t| - i
  {
    if i < |t| {
      CoalesceConserves(MergeAt(t, i), i + 1, a);
      if t[i].kind == Dram {
        MergeConserves(t, i, NextBase(t[i]), 0, a);
        CoverSum(MergeLoss(t, i, NextBase(t[i]), 0), CoalesceLoss(MergeAt(t, i), i + 1), a);
      } else {
        assert [] + CoalesceLoss(t, i + 1) == CoalesceLoss(t, i + 1);
      }
    }
  }

  lemma {:induction false} CoverAtLeast(s: seq<MemDesc>, n: nat, k: nat, a: int)
    requires k < n <= |s|
    ensures Count(s, n, a) >= Hit(s[k], a)
  {
    if k < n - 1 {
      CoverAtLeast(s, n - 1, k, a);
    }
  }

  ghost predicate KeepsCover(t: seq<MemDesc>, r: seq<MemDesc>) {
    forall a :: Cover(r, a) == Cover(t, a)
  }

  /** Merging keeps the cover exactly when it loses no region. */
  lemma CoalesceExactly(t: seq<MemDesc>)
    ensures CoalesceLoss(t, 0) == [] <==> KeepsCover(t, CoalesceRows(t, 0))
  {
    var r, lost := CoalesceRows(t, 0), CoalesceLoss(t, 0);
    if lost == [] {
      forall a
        ensures Cover(r, a) == Cover(t, a)
      {
        CoalesceConserves(t, 0, a);
      }
    } else {
      var a := lost[0].base;
      CoalesceConserves(t, 0, a);
      CoverAtLeast(lost, |lost|, 0, a);
      assert Cover(r, a) != Cover(t, a);
    }
  }

  // Tables that lose nothing

  lemma {:induction false} WellFormedMerge(t: seq<MemDesc>, i: nat, next: uint64, j: nat)
    requires i < |t| && j <= |t| && WellFormed(t, |t|) && t[i].kind == Dram && next == NextBase(t[i])
    ensures MergeLoss(t, i, next, j) == [] && WellFormed(MergeRows(t, i, next, j), |t|)
    decreases |t| - j
  {
    if j < |t| {
      if t[j].kind == Dram && next == t[j].base {
        WellFormedMerge(JoinedRows(t, i, j), i, NextBase(t[j]), j + 1);
      } else {
        WellFormedMerge(t, i, next, j + 1);
      }
    }
  }

  /** Merging loses nothing if no region is empty or ends at the top of the address range. */
  lemma {:induction false} WellFormedLosesNothing(t: seq<MemDesc>, i: nat)
    requires i <= |t| && WellFormed(t, |t|)
    ensures CoalesceLoss(t, i) == [] && WellFormed(CoalesceRows(t, i), |t|)
    decreases |t| - i
  {
    if i < |t| {
      if t[i].kind == Dram {
        WellFormedMerge(t, i, NextBase(t[i]), 0);
      }
      WellFormedLosesNothing(MergeAt(t, i), i + 1);
    }
  }

  /** A region that is empty, because its limit is below its base, makes merging lose memory. */
  lemma MergeLosesMemory()
    ensures CoalesceLoss([MemDesc(Dram, 0, 9), MemDesc(Dram, 10, 5)], 0) == [MemDesc(Dram, 6, 9)]
  {
    var t := [MemDesc(Dram, 0, 9), MemDesc(Dram, 10, 5)];
    var u := [MemDesc(Dram, 0, 5), MergedDesc()];
    assert JoinedRows(t, 0, 1) == u;
    assert MergeRows(u, 0, 6, 2) == u && MergeLoss(u, 0, 6, 2) == [];
    assert MergeRows(t, 0, 10, 1) == u && MergeLoss(t, 0, 10, 1) == [MemDesc(Dram, 6, 9)];
    assert MergeRows(t, 0, 10, 0) == u && MergeLoss(t, 0, 10, 0) == [MemDesc(Dram, 6, 9)];
    assert CoalesceLoss(u, 2) == [];
    assert CoalesceLoss(u, 1) == [];
  }

  // Tables in which everything is merged

  /** Region `e` starts right behind region `d`. */
  ghost predicate Follows(d: MemDesc, e: MemDesc) {
    d.kind == Dram && e.kind == Dram && e.base == d.limit + 1
  }

  ghost predicate NoneBehind(t: seq<MemDesc>, i: nat)
    requires i < |t|
  {
    forall m :: 0 <= m < |t| ==> !Follows(t[i], t[m])
  }

  /** The memory regions are in order of their addresses, and do not overlap. */
  ghost predicate Ascending(t: seq<MemDesc>) {
    && WellFormed(t, |t|)
    && forall i, j :: 0 <= i < j < |t| && t[i].kind == Dram && t[j].kind == Dram ==> t[i].limit < t[j].base
  }

  ghost predicate BasesKept(t: seq<MemDesc>, r: seq<MemDesc>) {
    && |r| == |t|
    && forall m :: 0 <= m < |t| && r[m].kind == Dram ==> t[m].kind == Dram && r[m].base == t[m].base
  }

  lemma JoinAscends(t: seq<MemDesc>, i: nat, j: nat)
    requires i < |t| && j < |t| && Ascending(t) && Follows(t[i], t[j])
    ensures i < j && Ascending(JoinedRows(t, i, j)) && BasesKept(t, JoinedRows(t, i, j))
    ensures forall m :: 0 <= m <= j ==> !Follows(JoinedRows(t, i, j)[i], JoinedRows(t, i, j)[m])
  {
  }

  /** In an ascending table the region at entry `i` has taken over everything that follows it. */
  lemma {:induction false} MergeComplete(t: seq<MemDesc>, i: nat, next: uint64, j: nat)
    requires i < |t| && j <= |t| && Ascending(t) && t[i].kind == Dram && next == t[i].limit + 1
    requires forall m :: 0 <= m < j ==> !Follows(t[i], t[m])
    ensures var r := MergeRows(t, i, next, j);
            Ascending(r) && BasesKept(t, r) && NoneBehind(r, i) && forall k :: 0 <= k < i ==> r[k] == t[k]
    decreases |t| - j
  {
    if j < |t| {
      if t[j].kind == Dram && next == t[j].base {
        JoinAscends(t, i, j);
        MergeComplete(JoinedRows(t, i, j), i, NextBase(t[j]), j + 1);
      } else {
        MergeComplete(t, i, next, j + 1);
      }
    }
  }

  lemma StillNoneBehind(t: seq<MemDesc>, r: seq<MemDesc>, k: nat)
    requires k < |t| && BasesKept(t, r) && r[k] == t[k] && NoneBehind(t, k)
    ensures NoneBehind(r, k)
  {
    forall m | 0 <= m < |r|
      ensures !Follows(r[k], r[m])
    {
      assert !Follows(t[k], t[m]);
    }
  }

  /** After merging an ascending table no region starts right behind another. */
  lemma {:induction false} AllMerged(t: seq<MemDesc>, i: nat)
    requires i <= |t| && Ascending(t) && forall k :: 0 <= k < i ==> NoneBehind(t, k)
    ensures Ascending(CoalesceRows(t, i)) && forall k :: 0 <= k < |t| ==> NoneBehind(CoalesceRows(t, i), k)
    decreases |t| - i
  {
    if i < |t| {
      var r := MergeAt(t, i);
      if t[i].kind == Dram {
        MergeComplete(t, i, NextBase(t[i]), 0);
      }
      forall k | 0 <= k < i
        ensures NoneBehind(r, k)
      {
        StillNoneBehind(t, r, k);
      }
      AllMerged(r, i + 1);
    }
  }

  /** Regions are merged in whatever order they come. */
  lemma MergedBackwards(d: MemDesc, e: MemDesc)
    requires Follows(d, e) && d.base <= d.limit && e.base <= e.limit < TWO_64 - 1
    ensures CoalesceRows([e, d], 0) == [MergedDesc(), d.(limit := e.limit)]
  {
    var t, u := [e, d], [MergedDesc(), d.(limit := e.limit)];
    assert MergeRows(t, 0, NextBase(e), 2) == t && MergeRows(t, 0, NextBase(e), 1) == t;
    assert MergeAt(t, 0) == t;
    assert JoinedRows(t, 1, 0) == u;
    assert MergeRows(u, 1, NextBase(e), 2) == u && MergeRows(u, 1, NextBase(e), 1) == u;
    assert MergeAt(t, 1) == u;
    assert CoalesceRows(u, 2) == u && CoalesceRows(t, 1) == u;
  }

  // Merging in place

  lemma {:induction false} HolesKept(was: seq<MemDesc>, s: seq<MemDesc>, n: nat)
    requires n <= |was| && OthersKept(was, s)
    ensures LastHole(s, n) == LastHole(was, n)
  {
    if n > 0 {
      HolesKept(was, s, n - 1);
    }
  }

  /** Joins neighbouring memory regions, and finds the hole. */
  method Coalesce(map_: SysMemMap) returns (hole: int)
    requires map_.Valid()
    modifies map_.region
    ensures map_.region[..map_.descNum] == CoalesceRows(old(map_.region[..map_.descNum]), 0)
    ensures var lost := CoalesceLoss(old(map_.region[..map_.descNum]), 0);
            && (forall a :: old(Cover(map_.region[..map_.descNum], a)) ==
                              Cover(map_.region[..map_.descNum], a) + Cover(lost, a))
            && (lost == [] <==> KeepsCover(old(map_.region[..map_.descNum]), map_.region[..map_.descNum]))
    ensures OthersKept(old(map_.region[..]), map_.region[..])
    ensures hole == LastHole(old(map_.region[..]), map_.descNum)
  {
    ghost var was := map_.region[..];
    ghost var rows := map_.region[..map_.descNum];
    hole := -1;
    for i := 0 to map_.descNum
      invariant OthersKept(was, map_.region[..]) && hole == LastHole(was, i)
      invariant CoalesceRows(map_.region[..map_.descNum], i) == CoalesceRows(rows, 0)
    {
      if map_.region[i].kind == Dram {
        MergeInto(map_, i, was);
      } else if map_.region[i].kind == MmioHole {
        hole := i;
      }
    }
    forall a
      ensures Cover(rows, a) == Cover(map_.region[..map_.descNum], a) + Cover(CoalesceLoss(rows, 0), a)
    {
      CoalesceConserves(rows, 0, a);
    }
    CoalesceExactly(rows);
  }

  /** Joins to region i every region that starts right behind it. */
  method MergeInto(map_: SysMemMap, i: nat, ghost was: seq<MemDesc>)
    requires map_.Valid() && i < map_.descNum && map_.region[i].kind == Dram && OthersKept(was, map_.region[..])
    modifies map_.region
    ensures OthersKept(was, map_.region[..])
    ensures map_.region[..map_.descNum] == MergeAt(old(map_.region[..map_.descNum]), i)
  {
    ghost var n := map_.descNum;
    ghost var total := MergeAt(map_.region[..n], i);
    var nextBase := NextBase(map_.region[i]);
    for j := 0 to map_.descNum
      invariant OthersKept(was, map_.region[..]) && was[i].kind == Dram
      invariant MergeRows(map_.region[..n], i, nextBase, j) == total
    {
      if map_.region[j].kind == Dram && nextBase == map_.region[j].base {
        ghost var t := map_.region[..n];
        map_.region[i] := map_.region[i].(limit := map_.region[j].limit);
        nextBase := NextBase(map_.region[i]);
        map_.region[j] := MergedDesc();
        assert map_.region[..n] == JoinedRows(t, i, j);
      }
    }
  }
}
