/** Cutting ranges out of the map of memory, one after the other. */
module MemCuts {
  import opened Word
  import opened MemMap
  import opened LockedMsrs

  predicate InAny(ranges: seq<Range>, a: int) {
    exists k :: 0 <= k < |ranges| && ranges[k].lo <= a <= ranges[k].hi
  }

  lemma InMore(ranges: seq<Range>, r: Range, a: int)
    ensures InAny(ranges + [r], a) <==> InAny(ranges, a) || r.lo <= a <= r.hi
  {
    var more := ranges + [r];
    assert more[|ranges|] == r;
    if InAny(ranges, a) {
      var k :| 0 <= k < |ranges| && ranges[k].lo <= a <= ranges[k].hi;
      assert more[k] == ranges[k];
    }
  }

  /** Memory in the table: what there was, without the ranges. */
  ghost predicate Without(was: seq<MemDesc>, n: nat, s: seq<MemDesc>, m: nat, ranges: seq<Range>)
    requires n <= |was| && m <= |s|
  {
    forall a :: Count(s, m, a) == if InAny(ranges, a) then 0 else Count(was, n, a)
  }

  // Success, told by the rows of the table and the room in it

  /** Cutting out one range, in a table with room for `room` rows. */
  function Exclude(t: seq<MemDesc>, r: Range, room: nat): Option<seq<MemDesc>> {
    if |t| + SplitCount(t, |t|, r.lo, r.hi) <= room then Some(CutTable(t, r.lo, r.hi)) else None
  }

  /** Cutting out one range after the other. */
  function ExcludeAll(t: seq<MemDesc>, ranges: seq<Range>, room: nat): Option<seq<MemDesc>> {
    if ranges == [] then Some(t)
    else
      match ExcludeAll(t, ranges[..|ranges| - 1], room)
      case None => None
      case Some(u) => Exclude(u, ranges[|ranges| - 1], room)
  }

  lemma {:induction false} ExcludeMore(t: seq<MemDesc>, a: seq<Range>, b: seq<Range>, room: nat)
    ensures ExcludeAll(t, a, room).None? ==> ExcludeAll(t, a + b, room).None?
    ensures ExcludeAll(t, a, room).Some? ==>
      ExcludeAll(t, a + b, room) == ExcludeAll(ExcludeAll(t, a, room).value, b, room)
  {
    if b == [] {
      assert a + b == a;
    } else {
      var front := b[..|b| - 1];
      ExcludeMore(t, a, front, room);
      assert (a + b)[..|a + b| - 1] == a + front;
    }
  }

  /** A series of cuts: from the table `was` with `n` entries, the ranges `before` have led to the rows `start`. */
  datatype Series = Series(was: seq<MemDesc>, n: nat, before: seq<Range>, start: seq<MemDesc>)

  ghost predicate HasCut(c: Series, past: seq<Range>, room: nat, s: seq<MemDesc>, m: nat) {
    && c.n <= |c.was| && m <= |s| && Without(c.was, c.n, s, m, c.before + past)
    && ExcludeAll(c.start, past, room) == Some(s[..m])
  }

  /** The table `s` with `m` entries after the ranges `past` of the series have been cut out. A proof that does not
      mention `HasCut` takes it as a whole. */
  ghost predicate OnTrack(c: Series, past: seq<Range>, room: nat, s: seq<MemDesc>, m: nat) {
    forall p :: p == past ==> HasCut(c, p, room, s, m)
  }

  /** There is no room for what the ranges leave. */
  ghost predicate Stuck(c: Series, past: seq<Range>, room: nat) {
    ExcludeAll(c.start, past, room).None?
  }

  lemma StillStuck(c: Series, a: seq<Range>, b: seq<Range>, room: nat)
    requires Stuck(c, a, room)
    ensures Stuck(c, a + b, room)
  {
    ExcludeMore(c.start, a, b, room);
  }

  lemma OneMoreOnTrack(c: Series, past: seq<Range>, r: Range, room: nat, s: seq<MemDesc>, m: nat, t: seq<MemDesc>,
                       l: nat, ok: bool)
    requires OnTrack(c, past, room, s, m) && m <= |s| == |t| == room && l <= |t| && r.lo <= r.hi
    requires CutOut(s, m, t, l, r.lo, r.hi, ok)
    ensures if ok then OnTrack(c, past + [r], room, t, l) else Stuck(c, past + [r], room)
  {
    assert HasCut(c, past, room, s, m);
    SplitsOfPrefix(s, s[..m], m, r.lo, r.hi);
    assert (past + [r])[..|past|] == past;
    if ok {
      assert c.before + (past + [r]) == (c.before + past) + [r];
      WithoutMore(c.was, c.n, s, m, c.before + past, r, t, l);
    }
  }

  lemma WithoutMore(was: seq<MemDesc>, n: nat, s: seq<MemDesc>, m: nat, done: seq<Range>, r: Range, t: seq<MemDesc>,
                    l: nat)
    requires n <= |was| && m <= |s| && l <= |t|
    requires Without(was, n, s, m, done) && Excluded(s, m, t, l, r.lo, r.hi)
    ensures Without(was, n, t, l, done + [r])
  {
    forall a
      ensures Count(t, l, a) == if InAny(done + [r], a) then 0 else Count(was, n, a)
    {
      InMore(done, r, a);
      assert Count(s, m, a) == if InAny(done, a) then 0 else Count(was, n, a);
    }
  }

  /** Cuts out the next range of a series. */
  method ExcludeRange(map_: SysMemMap, r: Range, ghost c: Series, ghost past: seq<Range>) returns (ok: bool)
    requires map_.Valid() && r.lo <= r.hi && OnTrack(c, past, map_.region.Length, map_.region[..], map_.descNum)
    modifies map_`descNum, map_.region
    ensures map_.Valid()
    ensures if ok then OnTrack(c, past + [r], map_.region.Length, map_.region[..], map_.descNum)
            else Stuck(c, past + [r], map_.region.Length)
  {
    ghost var s, m := map_.region[..], map_.descNum;
    ok := ExcludeFromMemMap(map_, r.lo, r.hi);
    OneMoreOnTrack(c, past, r, map_.region.Length, s, m, map_.region[..], map_.descNum, ok);
  }

  /** The outcome for ranges that may be unknown, because a register cannot be read. */
  ghost predicate Handled(c: Series, past: seq<Range>, ranges: Option<seq<Range>>, room: nat, s: seq<MemDesc>, m: nat,
                          ok: bool)
  {
    if ok then ranges.Some? && OnTrack(c, past + ranges.value, room, s, m)
    else ranges.Some? ==> Stuck(c, past + ranges.value, room)
  }

  lemma SameRows(t: seq<MemDesc>, s: seq<MemDesc>, n: nat)
    requires n == |t| <= |s| && s[..n] == t
    ensures SameCover(t, n, s, n) && SameCover(s, n, t, n) && Without(t, n, s, n, [])
  {
    forall a
      ensures Count(s, n, a) == Count(t, n, a) && !InAny([], a)
    {
      CountCong(s, t, n, a);
    }
  }

  /** Failing on the way is failing as a whole. */
  lemma FailedEarly(c: Series, past: seq<Range>, r: Option<seq<Range>>, rest: Option<seq<Range>>, room: nat,
                    s: seq<MemDesc>, m: nat)
    requires Handled(c, past, r, room, s, m, false)
    ensures Joined(r, rest).Some? ==> Stuck(c, past + Joined(r, rest).value, room)
  {
    if Joined(r, rest).Some? {
      StillStuck(c, past + r.value, rest.value, room);
      assert past + r.value + rest.value == past + (r.value + rest.value);
    }
  }

  /** Handling one set of ranges and then the rest is handling both. */
  lemma HandledBoth(c: Series, past: seq<Range>, r: Option<seq<Range>>, rest: Option<seq<Range>>, room: nat,
                    s: seq<MemDesc>, m: nat, ok: bool)
    requires r.Some? && Handled(c, past + r.value, rest, room, s, m, ok)
    ensures Handled(c, past, Joined(r, rest), room, s, m, ok)
  {
    if rest.Some? {
      assert past + r.value + rest.value == past + (r.value + rest.value);
    }
  }

  lemma StillBounded(was: seq<MemDesc>, n: nat, s: seq<MemDesc>, m: nat, done: seq<Range>, t: seq<MemDesc>, l: nat,
                     more: seq<Range>, tom: int, tom2: int)
    requires n <= |was| && m <= |s| && l <= |t|
    requires Without(was, n, s, m, done) && Without(was, n, t, l, done + more) && Bounded(s, m, tom, tom2)
    ensures Bounded(t, l, tom, tom2)
  {
    forall a | Count(t, l, a) > 0
      ensures Count(s, m, a) > 0
    {
      InPrefix(done, more, a);
    }
  }

  lemma InPrefix(done: seq<Range>, more: seq<Range>, a: int)
    ensures InAny(done, a) ==> InAny(done + more, a)
  {
    if InAny(done, a) {
      var k :| 0 <= k < |done| && done[k].lo <= a <= done[k].hi;
      assert (done + more)[k] == done[k];
    }
  }
}
