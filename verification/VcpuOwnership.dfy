/** Who owns which VCPU block: the free list, the lists of the guests, and what every step keeps. */
module VcpuOwnership {
  import opened Word
  import opened VcpuPool

  /** The SEV-ES part of a guest. */
  datatype EsGuest = EsGuest(snp: bool, esEnabled: bool, numVcpus: nat, headIndex: uint32, tailIndex: uint32)

  /** Held: handed out and not yet on a list. Lost: taken off the free list by a call that then failed. */
  datatype Owner = Pooled | Guest(id: nat) | Held | Lost

  /** The blocks of one owner are exactly the members of its list. */
  ghost predicate Owns(owner: seq<Owner>, who: Owner, s: seq<nat>) {
    && (forall k :: 0 <= k < |s| ==> s[k] < |owner| && owner[s[k]] == who)
    && (forall i: nat :: i < |owner| && owner[i] == who ==> i in s)
  }

  ghost predicate GuestOk(next: seq<uint32>, e: EsGuest, list: seq<nat>) {
    && e.numVcpus == |list|
    && if list == [] then e.headIndex == INVALID_BLOCK && e.tailIndex == INVALID_BLOCK
       else Linked(next, list) && e.headIndex == list[0] && e.tailIndex == list[|list| - 1]
  }

  /** The next indices, the free list, the owner of every block, the guests and their lists. */
  datatype PoolState = PoolState(next: seq<uint32>, free: seq<nat>, owner: seq<Owner>, guests: seq<EsGuest>,
                                 lists: seq<seq<nat>>)

  /** Every block is on the free list, on one guest's list, held or lost; the lists are linked from head to tail. */
  ghost predicate Partitioned(p: PoolState) {
    && |p.owner| <= |p.next| && |p.lists| == |p.guests|
    && Linked(p.next, p.free) && Owns(p.owner, Pooled, p.free)
    && GuestsOk(p.next, p.owner, p.guests, p.lists)
    && (forall i :: 0 <= i < |p.owner| && p.owner[i] == Held ==> p.next[i] == INVALID_BLOCK)
    && (forall i :: 0 <= i < |p.owner| && p.owner[i].Guest? ==> p.owner[i].id < |p.guests|)
  }

  ghost predicate GuestsOk(next: seq<uint32>, owner: seq<Owner>, guests: seq<EsGuest>, lists: seq<seq<nat>>) {
    && |lists| == |guests|
    && forall g :: 0 <= g < |guests| ==> GuestOk(next, guests[g], lists[g]) && Owns(owner, Guest(g), lists[g])
  }

  /** A proof that does not mention `Partitioned` takes this as a whole. */
  ghost predicate Consistent(p: PoolState) {
    forall q :: q == p ==> Partitioned(q)
  }

  lemma LookInside(p: PoolState)
    requires Consistent(p)
    ensures Partitioned(p)
  {
    assert Partitioned(p);
  }

  /** A write to a block of no guest leaves every guest's list alone. */
  lemma GuestsUntouched(next: seq<uint32>, owner: seq<Owner>, guests: seq<EsGuest>, lists: seq<seq<nat>>, i: nat,
                        v: uint32, but: int)
    requires |owner| <= |next| && |lists| == |guests| && i < |owner|
    requires forall g :: 0 <= g < |guests| ==> GuestOk(next, guests[g], lists[g]) && Owns(owner, Guest(g), lists[g])
    requires owner[i].Guest? ==> owner[i].id == but
    ensures forall g :: 0 <= g < |guests| && g != but ==> GuestOk(next[i := v], guests[g], lists[g])
  {
    forall g | 0 <= g < |guests| && g != but
      ensures GuestOk(next[i := v], guests[g], lists[g])
    {
      if lists[g] != [] {
        WriteElsewhere(next, lists[g], i, v);
      }
    }
  }

  /** Other owners keep what they own. */
  lemma OwnersUntouched(owner: seq<Owner>, i: nat, to: Owner, who: Owner, s: seq<nat>)
    requires i < |owner| && Owns(owner, who, s) && who != owner[i] && who != to
    ensures Owns(owner[i := to], who, s)
  {
  }

  lemma OtherGuests(next: seq<uint32>, owner: seq<Owner>, guests: seq<EsGuest>, lists: seq<seq<nat>>, i: nat,
                    to: Owner)
    requires |lists| == |guests| && i < |owner| && !owner[i].Guest? && !to.Guest?
    requires forall g :: 0 <= g < |guests| ==> GuestOk(next, guests[g], lists[g]) && Owns(owner, Guest(g), lists[g])
    ensures GuestsOk(next, owner[i := to], guests, lists)
  {
    forall g | 0 <= g < |guests|
      ensures Owns(owner[i := to], Guest(g), lists[g])
    {
      OwnersUntouched(owner, i, to, Guest(g), lists[g]);
    }
  }

  lemma OwnerLoses(owner: seq<Owner>, to: Owner, s: seq<nat>, who: Owner)
    requires |s| > 0 && Owns(owner, who, s) && Distinct(s) && to != who
    ensures Owns(owner[s[0] := to], who, s[1..])
  {
    var o, t := owner[s[0] := to], s[1..];
    forall i: nat | i < |o| && o[i] == who
      ensures i in t
    {
      var k :| 0 <= k < |s| && s[k] == i;
      assert t[k - 1] == i;
    }
  }

  lemma OwnerGains(owner: seq<Owner>, i: nat, s: seq<nat>, who: Owner)
    requires i < |owner| && owner[i] != who && Owns(owner, who, s)
    ensures Owns(owner[i := who], who, s + [i])
  {
    var o, t := owner[i := who], s + [i];
    forall j: nat | j < |o| && o[j] == who
      ensures j in t
    {
      if j == i {
        assert t[|s|] == i;
      } else {
        var k :| 0 <= k < |s| && s[k] == j;
        assert t[k] == j;
      }
    }
  }

  ghost predicate CanTake(p: PoolState) {
    |p.free| > 1 && p.free[0] < |p.owner| && p.free[0] < |p.next| && p.owner[p.free[0]] == Pooled
  }

  ghost predicate IsHeld(p: PoolState, i: nat) {
    i < |p.owner| && i < |p.next| && i < INVALID_BLOCK && p.owner[i] == Held && p.next[i] == INVALID_BLOCK
  }

  /** What can be read off a consistent state. */
  lemma FreeList(p: PoolState)
    requires Consistent(p)
    ensures Linked(p.next, p.free) && (|p.free| > 1 ==> CanTake(p))
    ensures forall i :: IsHeld(p, i) ==> i !in p.free
  {
    LookInside(p);
  }

  lemma GuestList(p: PoolState, g: nat)
    requires Consistent(p) && g < |p.guests|
    ensures g < |p.lists| && GuestOk(p.next, p.guests[g], p.lists[g]) && Owns(p.owner, Guest(g), p.lists[g])
  {
    LookInside(p);
  }

  /** Right after the initialisation of the pool. */
  function Initial(next: seq<uint32>, n: nat, guests: seq<EsGuest>): PoolState {
    PoolState(next, seq(n, i => i), seq(n, _ => Pooled), guests, seq(|guests|, _ => []))
  }

  lemma InitialIsConsistent(next: seq<uint32>, n: nat, guests: seq<EsGuest>)
    requires n <= |next| && Linked(next, seq(n, i => i))
    requires forall g :: 0 <= g < |guests| ==> GuestOk(next, guests[g], [])
    ensures Consistent(Initial(next, n, guests))
  {
    var s: seq<nat> := seq(n, i => i);
    forall i: nat | i < n
      ensures i in s
    {
      assert s[i] == i;
    }
    assert Partitioned(Initial(next, n, guests));
  }

  /** The head of the free list is handed out, or lost if its link was not cut. */
  function Taken(p: PoolState, after: seq<uint32>, to: Owner): PoolState
    requires CanTake(p)
  {
    p.(next := after, free := p.free[1..], owner := p.owner[p.free[0] := to])
  }

  lemma TakeKeeps(p: PoolState, after: seq<uint32>, to: Owner)
    requires Consistent(p) && CanTake(p) && (to == Held || to == Lost)
    requires after == p.next[p.free[0] := INVALID_BLOCK] || (after == p.next && to == Lost)
    ensures Consistent(Taken(p, after, to))
    ensures to == Held ==> IsHeld(Taken(p, after, to), p.free[0])
  {
    LookInside(p);
    var b := p.free[0];
    LinkedIsAcyclic(p.next, p.free);
    DropHead(p.next, p.free);
    WriteElsewhere(p.next, p.free[1..], b, INVALID_BLOCK);
    OwnerLoses(p.owner, to, p.free, Pooled);
    GuestsUntouched(p.next, p.owner, p.guests, p.lists, b, INVALID_BLOCK, -1);
    OtherGuests(after, p.owner, p.guests, p.lists, b, to);
    assert Partitioned(Taken(p, after, to));
  }

  /** A held block is put back at the end of the free list. */
  function Returned(p: PoolState, i: uint32): PoolState
    requires IsHeld(p, i) && |p.free| > 0 && p.free[|p.free| - 1] < |p.next|
  {
    p.(next := p.next[p.free[|p.free| - 1] := i], free := p.free + [i], owner := p.owner[i := Pooled])
  }

  lemma ReturnKeeps(p: PoolState, i: uint32)
    requires Consistent(p) && IsHeld(p, i)
    ensures |p.free| > 0 && p.free[|p.free| - 1] < |p.next| && Consistent(Returned(p, i))
  {
    LookInside(p);
    var tail := p.free[|p.free| - 1];
    JoinLists(p.next, p.free, [i]);
    OwnerGains(p.owner, i, p.free, Pooled);
    GuestsUntouched(p.next, p.owner, p.guests, p.lists, tail, i, -1);
    OtherGuests(p.next[tail := i], p.owner, p.guests, p.lists, i, Pooled);
    assert Partitioned(Returned(p, i));
  }

  /** A held block is given up. */
  function Forgotten(p: PoolState, i: nat): PoolState
    requires IsHeld(p, i)
  {
    p.(owner := p.owner[i := Lost])
  }

  lemma ForgetKeeps(p: PoolState, i: nat)
    requires Consistent(p) && IsHeld(p, i)
    ensures Consistent(Forgotten(p, i))
  {
    LookInside(p);
    OwnersUntouched(p.owner, i, Lost, Pooled, p.free);
    forall g | 0 <= g < |p.guests|
      ensures Owns(p.owner[i := Lost], Guest(g), p.lists[g])
    {
      OwnersUntouched(p.owner, i, Lost, Guest(g), p.lists[g]);
    }
    assert Partitioned(Forgotten(p, i));
  }

  function WithVcpu(e: EsGuest, i: uint32): EsGuest {
    e.(numVcpus := e.numVcpus + 1, tailIndex := i,
       headIndex := if e.headIndex == INVALID_BLOCK then i else e.headIndex)
  }

  ghost predicate CanAppend(p: PoolState, g: nat, i: nat) {
    && IsHeld(p, i) && g < |p.guests| && g < |p.lists|
    && (p.lists[g] != [] ==> p.lists[g][|p.lists[g]| - 1] < |p.next|)
  }

  /** A held block is linked behind a guest's list. */
  function Appended(p: PoolState, g: nat, i: uint32): PoolState
    requires CanAppend(p, g, i)
  {
    var list := p.lists[g];
    p.(next := if list == [] then p.next else p.next[list[|list| - 1] := i], owner := p.owner[i := Guest(g)],
       guests := p.guests[g := WithVcpu(p.guests[g], i)], lists := p.lists[g := list + [i]])
  }

  lemma AppendKeeps(p: PoolState, g: nat, i: uint32)
    requires Consistent(p) && CanAppend(p, g, i)
    ensures Consistent(Appended(p, g, i))
  {
    LookInside(p);
    AppendedLists(p, g, i);
    AppendedOwners(p, g, i);
    assert Partitioned(Appended(p, g, i));
  }

  /** The lists with the block at the end of one. */
  lemma AppendedLists(p: PoolState, g: nat, i: uint32)
    requires Partitioned(p) && CanAppend(p, g, i)
    ensures var r := Appended(p, g, i);
            && |r.next| == |p.next| && Linked(r.next, r.free)
            && (forall h :: 0 <= h < |r.guests| ==> GuestOk(r.next, r.guests[h], r.lists[h]))
            && (forall k :: 0 <= k < |p.owner| && p.owner[k] == Held ==> r.next[k] == INVALID_BLOCK)
  {
    var list := p.lists[g];
    assert Owns(p.owner, Guest(g), list) && GuestOk(p.next, p.guests[g], list);
    assert Linked(p.next, [i]);
    if list != [] {
      JoinLists(p.next, list, [i]);
      var tail := list[|list| - 1];
      GuestsUntouched(p.next, p.owner, p.guests, p.lists, tail, i, g);
      WriteElsewhere(p.next, p.free, tail, i);
    } else {
      assert list + [i] == [i];
    }
  }

  /** The owners with the block at the end of a list. */
  lemma AppendedOwners(p: PoolState, g: nat, i: uint32)
    requires Partitioned(p) && CanAppend(p, g, i)
    ensures var r := Appended(p, g, i);
            && Owns(r.owner, Pooled, r.free)
            && (forall h :: 0 <= h < |r.guests| ==> Owns(r.owner, Guest(h), r.lists[h]))
  {
    OwnerGains(p.owner, i, p.lists[g], Guest(g));
    OwnersUntouched(p.owner, i, Guest(g), Pooled, p.free);
    forall h | 0 <= h < |p.guests| && h != g
      ensures Owns(p.owner[i := Guest(g)], Guest(h), p.lists[h])
    {
      OwnersUntouched(p.owner, i, Guest(g), Guest(h), p.lists[h]);
    }
  }

  function Released(owner: seq<Owner>, list: seq<nat>): (r: seq<Owner>)
    ensures |r| == |owner|
  {
    seq(|owner|, i requires 0 <= i < |owner| => if i in list then Pooled else owner[i])
  }

  function WithoutVcpus(e: EsGuest): EsGuest {
    e.(numVcpus := 0, headIndex := INVALID_BLOCK, tailIndex := INVALID_BLOCK)
  }

  ghost predicate CanGiveBack(p: PoolState, g: nat) {
    && g < |p.guests| && g < |p.lists| && p.lists[g] != [] && p.lists[g][0] < INVALID_BLOCK
    && |p.free| > 0 && p.free[|p.free| - 1] < |p.next|
  }

  /** The whole list of a guest is back on the free list. */
  function GivenBack(p: PoolState, g: nat): PoolState
    requires CanGiveBack(p, g)
  {
    var list := p.lists[g];
    p.(next := p.next[p.free[|p.free| - 1] := list[0] as uint32], free := p.free + list,
       owner := Released(p.owner, list), guests := p.guests[g := WithoutVcpus(p.guests[g])],
       lists := p.lists[g := []])
  }

  lemma GiveBackKeeps(p: PoolState, g: nat)
    requires Consistent(p) && g < |p.guests| && g < |p.lists| && p.lists[g] != []
    ensures CanGiveBack(p, g) && Consistent(GivenBack(p, g))
  {
    LookInside(p);
    var list, tail := p.lists[g], p.free[|p.free| - 1];
    JoinedToFree(p, g);
    GuestsUntouched(p.next, p.owner, p.guests, p.lists, tail, list[0] as uint32, -1);
    ReleasedGuests(p, g, list[0] as uint32);
    ReleasedRest(p, g, tail, list[0] as uint32);
    assert Partitioned(GivenBack(p, g));
  }

  /** The list of a guest behind the free list. */
  lemma JoinedToFree(p: PoolState, g: nat)
    requires Partitioned(p) && g < |p.guests| && p.lists[g] != []
    ensures CanGiveBack(p, g)
    ensures Linked(p.next[p.free[|p.free| - 1] := p.lists[g][0] as uint32], p.free + p.lists[g])
    ensures Owns(Released(p.owner, p.lists[g]), Pooled, p.free + p.lists[g])
  {
    var list := p.lists[g];
    assert GuestOk(p.next, p.guests[g], list) && Owns(p.owner, Guest(g), list);
    OwnersApart(p.owner, p.free, list, g);
    JoinLists(p.next, p.free, list);
    ReleasedOwners(p.owner, p.free, list, g);
  }

  lemma ReleasedRest(p: PoolState, g: nat, tail: nat, head: uint32)
    requires Partitioned(p) && g < |p.guests| && tail < |p.owner| && p.owner[tail] == Pooled
    ensures var o, next := Released(p.owner, p.lists[g]), p.next[tail := head];
            && |o| == |p.owner| && (forall i :: 0 <= i < |o| && o[i] == Held ==> next[i] == INVALID_BLOCK)
            && (forall i :: 0 <= i < |o| && o[i].Guest? ==> o[i].id < |p.guests|)
  {
  }

  lemma OwnersApart(owner: seq<Owner>, free: seq<nat>, list: seq<nat>, g: nat)
    requires Owns(owner, Pooled, free) && Owns(owner, Guest(g), list)
    ensures forall k :: 0 <= k < |list| ==> list[k] !in free
  {
    forall k | 0 <= k < |list|
      ensures list[k] !in free
    {
      assert owner[list[k]] == Guest(g);
    }
  }

  lemma ReleasedGuests(p: PoolState, g: nat, head: uint32)
    requires |p.lists| == |p.guests| && g < |p.guests| && |p.owner| <= |p.next| && |p.free| > 0
    requires p.free[|p.free| - 1] < |p.next| && GuestsOk(p.next, p.owner, p.guests, p.lists)
    requires forall h :: 0 <= h < |p.guests| ==> GuestOk(p.next[p.free[|p.free| - 1] := head], p.guests[h], p.lists[h])
    ensures GuestsOk(p.next[p.free[|p.free| - 1] := head], Released(p.owner, p.lists[g]),
                     p.guests[g := WithoutVcpus(p.guests[g])], p.lists[g := []])
  {
    forall h | 0 <= h < |p.guests| && h != g
      ensures Owns(Released(p.owner, p.lists[g]), Guest(h), p.lists[h])
    {
      ReleasedOthers(p.owner, p.lists[g], g, h, p.lists[h]);
    }
    assert Owns(Released(p.owner, p.lists[g]), Guest(g), []);
  }

  lemma ReleasedOwners(owner: seq<Owner>, free: seq<nat>, list: seq<nat>, g: nat)
    requires Owns(owner, Pooled, free) && Owns(owner, Guest(g), list)
    ensures Owns(Released(owner, list), Pooled, free + list)
  {
    var o, t := Released(owner, list), free + list;
    forall k | 0 <= k < |t|
      ensures t[k] < |o| && o[t[k]] == Pooled
    {
      if k >= |free| {
        assert t[k] == list[k - |free|];
      }
    }
  }

  lemma ReleasedOthers(owner: seq<Owner>, list: seq<nat>, g: nat, h: nat, other: seq<nat>)
    requires Owns(owner, Guest(g), list) && Owns(owner, Guest(h), other) && h != g
    ensures Owns(Released(owner, list), Guest(h), other)
  {
  }

  // Counting the blocks of each owner

  function Count(owner: seq<Owner>, who: Owner): nat {
    if owner == [] then 0
    else Count(owner[..|owner| - 1], who) + if owner[|owner| - 1] == who then 1 else 0
  }

  function Members(owner: seq<Owner>, who: Owner): set<nat> {
    set i: nat | i < |owner| && owner[i] == who
  }

  lemma MembersStep(owner: seq<Owner>, who: Owner)
    requires owner != []
    ensures var n := |owner| - 1;
            Members(owner, who) == Members(owner[..n], who) + if owner[n] == who then {n} else {}
    ensures |owner| - 1 !in Members(owner[..|owner| - 1], who)
  {
    var n := |owner| - 1;
    var was := owner[..n];
    forall i: nat
      ensures i in Members(owner, who) <==> i in Members(was, who) || (i == n && owner[n] == who)
    {
      if i < n {
        assert was[i] == owner[i];
      }
    }
  }

  lemma {:induction false} CountMembers(owner: seq<Owner>, who: Owner)
    ensures |Members(owner, who)| == Count(owner, who)
    decreases |owner|
  {
    if owner != [] {
      CountMembers(owner[..|owner| - 1], who);
      MembersStep(owner, who);
    }
  }

  function Elements(s: seq<nat>): set<nat> {
    set i | i in s
  }

  lemma {:induction false} DistinctCount(s: seq<nat>)
    requires Distinct(s)
    ensures |Elements(s)| == |s|
  {
    if s == [] {
      assert Elements(s) == {};
    } else {
      var n := |s| - 1;
      var t := s[..n];
      DistinctCount(t);
      assert Elements(s) == Elements(t) + {s[n]};
      assert s[n] !in Elements(t);
    }
  }

  /** A list counts the blocks of its owner. */
  lemma OwnedCount(owner: seq<Owner>, who: Owner, s: seq<nat>)
    requires Owns(owner, who, s) && Distinct(s)
    ensures |s| == Count(owner, who)
  {
    assert Members(owner, who) == Elements(s);
    CountMembers(owner, who);
    DistinctCount(s);
  }

  /** The blocks owned by the first `k` guests. */
  function GuestCount(owner: seq<Owner>, k: nat): nat {
    if k == 0 then 0 else GuestCount(owner, k - 1) + Count(owner, Guest(k - 1))
  }

  lemma {:induction false} GuestCountStep(owner: seq<Owner>, k: nat)
    requires owner != []
    ensures var last := owner[|owner| - 1];
            GuestCount(owner, k)
            == GuestCount(owner[..|owner| - 1], k) + if last.Guest? && last.id < k then 1 else 0
  {
    if k > 0 {
      GuestCountStep(owner, k - 1);
    }
  }

  lemma {:induction false} CountAll(owner: seq<Owner>, k: nat)
    requires forall i :: 0 <= i < |owner| && owner[i].Guest? ==> owner[i].id < k
    ensures Count(owner, Pooled) + GuestCount(owner, k) + Count(owner, Held) + Count(owner, Lost) == |owner|
    decreases |owner|
  {
    if owner == [] {
      NoGuests(k);
    } else {
      CountAll(owner[..|owner| - 1], k);
      GuestCountStep(owner, k);
    }
  }

  lemma {:induction false} NoGuests(k: nat)
    ensures GuestCount([], k) == 0
  {
    if k > 0 {
      NoGuests(k - 1);
    }
  }

  function TotalVcpus(guests: seq<EsGuest>): nat {
    if guests == [] then 0 else TotalVcpus(guests[..|guests| - 1]) + guests[|guests| - 1].numVcpus
  }

  lemma {:induction false} VcpusAreCounted(next: seq<uint32>, owner: seq<Owner>, guests: seq<EsGuest>,
                                           lists: seq<seq<nat>>)
    requires |lists| == |guests|
    requires forall g :: 0 <= g < |guests| ==> GuestOk(next, guests[g], lists[g]) && Owns(owner, Guest(g), lists[g])
    ensures TotalVcpus(guests) == GuestCount(owner, |guests|)
    decreases |guests|
  {
    if guests != [] {
      var n := |guests| - 1;
      VcpusAreCounted(next, owner, guests[..n], lists[..n]);
      if lists[n] != [] {
        LinkedIsAcyclic(next, lists[n]);
      }
      OwnedCount(owner, Guest(n), lists[n]);
    }
  }

  /** No block appears or disappears, and at least one always stays on the free list. */
  lemma BlocksConserved(p: PoolState)
    requires Consistent(p)
    ensures |p.free| + TotalVcpus(p.guests) + Count(p.owner, Held) + Count(p.owner, Lost) == |p.owner|
    ensures TotalVcpus(p.guests) + Count(p.owner, Held) + Count(p.owner, Lost) <= |p.owner| - 1
  {
    LookInside(p);
    LinkedIsAcyclic(p.next, p.free);
    OwnedCount(p.owner, Pooled, p.free);
    VcpusAreCounted(p.next, p.owner, p.guests, p.lists);
    CountAll(p.owner, |p.guests|);
  }
}
