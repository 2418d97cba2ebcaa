/** The pool of VCPU blocks: a free list threaded through an array of next indices. */
module VcpuPool {
  import opened Word

  const INVALID_BLOCK: uint32 := 0xFFFF_FFFF
  const INDEX_BLOCK_SIZE: nat := 4
  const CRC_BLOCK_SIZE: nat := 8

  datatype EsStatus =
    | Success
    | InvalidParams
    | Unsupported
    | InvalidLength
    | InvalidAddress
    | ResourceLimit
    | BadMeasurement
    | MapFailed

  /** The indices `s` are linked from first to last, and the last one ends the list. */
  ghost predicate Linked(next: seq<uint32>, s: seq<nat>) {
    && |s| > 0
    && (forall k :: 0 <= k < |s| ==> s[k] < |next| && s[k] < INVALID_BLOCK)
    && (forall k :: 0 <= k < |s| - 1 ==> next[s[k]] == s[k + 1])
    && next[s[|s| - 1]] == INVALID_BLOCK
  }

  ghost predicate Distinct(s: seq<nat>) {
    forall i, j :: 0 <= i < j < |s| ==> s[i] != s[j]
  }

  /** A linked list cannot run into itself: it has an end. */
  lemma {:induction false} LinkedIsAcyclic(next: seq<uint32>, s: seq<nat>)
    requires Linked(next, s)
    ensures Distinct(s)
  {
    forall i, j | 0 <= i < j < |s|
      ensures s[i] != s[j]
    {
      if s[i] == s[j] {
        SameTail(next, s, i, j);
        assert false;
      }
    }
  }

  lemma {:induction false} SameTail(next: seq<uint32>, s: seq<nat>, i: nat, j: nat)
    requires Linked(next, s) && i < j < |s| && s[i] == s[j]
    ensures false
    decreases |s| - j
  {
    assert next[s[i]] == s[i + 1];
    if j + 1 < |s| {
      assert next[s[j]] == s[j + 1];
      SameTail(next, s, i + 1, j + 1);
    }
  }

  /** A write outside the list leaves the list alone. */
  lemma WriteElsewhere(next: seq<uint32>, s: seq<nat>, i: nat, v: uint32)
    requires Linked(next, s) && i < |next| && i !in s
    ensures Linked(next[i := v], s)
  {
  }

  /** A write elsewhere does not disturb the walk along a list. */
  lemma StepAlong(next: seq<uint32>, s: seq<nat>, k: nat, i: nat, v: uint32)
    requires Linked(next, s) && k + 1 < |s| && i < |next| && i !in s
    ensures s[k] < |next| && next[i := v][s[k]] == s[k + 1]
  {
    assert s[k] != i;
  }

  lemma DropHead(next: seq<uint32>, s: seq<nat>)
    requires Linked(next, s) && |s| > 1
    ensures Linked(next, s[1..]) && s[0] !in s[1..] && next[s[0]] == s[1]
  {
    LinkedIsAcyclic(next, s);
  }

  /** Joining two lists by a write to the last entry of the first. */
  lemma JoinLists(next: seq<uint32>, s: seq<nat>, t: seq<nat>)
    requires Linked(next, s) && Linked(next, t) && (forall k :: 0 <= k < |t| ==> t[k] !in s)
    ensures Linked(next[s[|s| - 1] := t[0]], s + t)
  {
    LinkedIsAcyclic(next, s);
    var last := s[|s| - 1];
    var n, u := next[last := t[0]], s + t;
    forall k | 0 <= k < |u| - 1
      ensures n[u[k]] == u[k + 1]
    {
      if k < |s| - 1 {
        assert u[k] == s[k] && u[k + 1] == s[k + 1];
      } else if k >= |s| {
        assert u[k] == t[k - |s|] && u[k + 1] == t[k - |s| + 1];
      }
    }
    assert u[|u| - 1] == t[|t| - 1];
  }

  /** The table of next indices after both writes of an append: the tail points to the block, which ends the list. */
  function BothWrites(next: seq<uint32>, tail: nat, idx: nat): seq<uint32>
    requires tail < |next| && idx < |next| && idx <= INVALID_BLOCK
  {
    next[tail := idx][idx := INVALID_BLOCK]
  }

  function AfterWrites(next: seq<uint32>, tail: nat, idx: nat, writes: nat): seq<uint32>
    requires tail < |next| && idx < |next| && idx <= INVALID_BLOCK
  {
    if writes == 0 then next else if writes == 1 then next[tail := idx] else BothWrites(next, tail, idx)
  }

  /** The free list after both writes: longer by the block, or cut behind it if the block is on the list already. */
  ghost function WithTail(s: seq<nat>, idx: nat): (r: seq<nat>)
    ensures |r| > 0 && r[|r| - 1] == idx && (s != [] ==> r[0] == s[0])
  {
    if s == [] then [idx] else if s[0] == idx then [idx] else [s[0]] + WithTail(s[1..], idx)
  }

  lemma {:induction false} WithTailBelow(s: seq<nat>, idx: nat, n: nat)
    requires idx < n && forall k :: 0 <= k < |s| ==> s[k] < n
    ensures forall k :: 0 <= k < |WithTail(s, idx)| ==> WithTail(s, idx)[k] < n
  {
    if s != [] && s[0] != idx {
      WithTailBelow(s[1..], idx, n);
    }
  }

  lemma {:induction false} NewTail(s: seq<nat>, idx: nat)
    requires idx !in s
    ensures WithTail(s, idx) == s + [idx]
  {
    if s != [] {
      NewTail(s[1..], idx);
    }
  }

  lemma {:induction false} OldTail(s: seq<nat>, p: nat)
    requires p < |s| && s[p] !in s[..p]
    ensures WithTail(s, s[p]) == s[..p + 1]
  {
    if p > 0 {
      assert s[1..][p - 1] == s[p] && s[1..][..p - 1] == s[..p][1..];
      assert s[0] == s[..p][0];
      OldTail(s[1..], p - 1);
      assert s[..p + 1] == [s[0]] + s[1..][..p];
    }
  }

  /** For a block at the end of a list of its own, the first write is enough. */
  lemma OneWriteIsEnough(next: seq<uint32>, s: seq<nat>, idx: nat)
    requires Linked(next, s) && idx < |next| && idx <= INVALID_BLOCK && idx !in s && next[idx] == INVALID_BLOCK
    ensures BothWrites(next, s[|s| - 1], idx) == next[s[|s| - 1] := idx] && WithTail(s, idx) == s + [idx]
  {
    NewTail(s, idx);
    assert s[|s| - 1] in s;
  }

  /** A block that is on no list, whatever it points to: it is appended. */
  lemma AppendedLinks(next: seq<uint32>, s: seq<nat>, idx: nat)
    requires Linked(next, s) && idx < |next| && idx < INVALID_BLOCK && idx !in s
    ensures Linked(BothWrites(next, s[|s| - 1], idx), s + [idx])
  {
    LinkedIsAcyclic(next, s);
    var n, t := BothWrites(next, s[|s| - 1], idx), s + [idx];
    forall k | 0 <= k < |t| - 1
      ensures n[t[k]] == t[k + 1]
    {
      assert t[k] == s[k] && s[k] != idx;
      if k < |s| - 1 {
        assert t[k + 1] == s[k + 1];
      }
    }
  }

  /** What the two writes of an append do for a block that is on the list already: the list ends with that block, and
      the blocks behind it are on no list any more. */
  lemma SecondFreeCuts(next: seq<uint32>, s: seq<nat>, p: nat)
    requires Linked(next, s) && p < |s|
    ensures Linked(BothWrites(next, s[|s| - 1], s[p]), s[..p + 1])
    ensures forall k :: p < k < |s| ==> s[k] !in s[..p + 1]
  {
    LinkedIsAcyclic(next, s);
    var n, t := BothWrites(next, s[|s| - 1], s[p]), s[..p + 1];
    forall k | 0 <= k < |t| - 1
      ensures n[t[k]] == t[k + 1]
    {
      assert next[s[k]] == s[k + 1];
    }
  }

  /** What they do for a block inside the list of a guest: that list is cut behind the block, which is the last of both
      lists; and the blocks behind it are on no list any more. */
  lemma ListedFreeCuts(next: seq<uint32>, s: seq<nat>, list: seq<nat>, p: nat)
    requires Linked(next, s) && Linked(next, list) && p < |list|
    requires forall k :: 0 <= k < |list| ==> list[k] !in s
    ensures var n := BothWrites(next, s[|s| - 1], list[p]);
            Linked(n, s + [list[p]]) && Linked(n, list[..p + 1])
    ensures forall k :: p < k < |list| ==> list[k] !in list[..p + 1] && list[k] !in s + [list[p]]
  {
    LinkedIsAcyclic(next, list);
    AppendedLinks(next, s, list[p]);
    var n, t := BothWrites(next, s[|s| - 1], list[p]), list[..p + 1];
    forall k | 0 <= k < |t| - 1
      ensures n[t[k]] == t[k + 1]
    {
      assert next[list[k]] == list[k + 1] && list[k] != list[p];
      assert s[|s| - 1] in s;
    }
  }

  lemma TailLinks(next: seq<uint32>, s: seq<nat>, idx: nat)
    requires Linked(next, s) && idx < |next| && idx < INVALID_BLOCK
    ensures Linked(BothWrites(next, s[|s| - 1], idx), WithTail(s, idx))
  {
    if idx in s {
      var p :| 0 <= p < |s| && s[p] == idx;
      LinkedIsAcyclic(next, s);
      SecondFreeCuts(next, s, p);
      OldTail(s, p);
    } else {
      NewTail(s, idx);
      AppendedLinks(next, s, idx);
    }
  }

  /** The block ends a list of its own and is not on this one. */
  predicate Alone(next: seq<uint32>, s: seq<nat>, idx: nat) {
    idx < |next| && idx !in s && next[idx] == INVALID_BLOCK
  }

  /** The free list after so many writes. */
  ghost function ListAfter(s: seq<nat>, idx: nat, writes: nat): seq<nat> {
    if writes == 0 then s else WithTail(s, idx)
  }

  /** When the free list is linked after so many writes. */
  lemma LinkedAfter(next: seq<uint32>, s: seq<nat>, idx: nat, writes: nat)
    requires Linked(next, s) && idx < |next| && idx < INVALID_BLOCK && writes <= 2
    ensures writes != 1 || Alone(next, s, idx) ==>
      Linked(AfterWrites(next, s[|s| - 1], idx, writes), ListAfter(s, idx, writes))
  {
    if writes == 2 {
      TailLinks(next, s, idx);
    } else if writes == 1 && Alone(next, s, idx) {
      OneWriteIsEnough(next, s, idx);
      TailLinks(next, s, idx);
    }
  }

  class Pool {
    var startCrcAddr: nat
    var endCrcAddr: nat
    var startPoolAddr: nat
    var endPoolAddr: nat
    var nrBlocks: nat
    var freeHeadIdx: nat
    var freeTailIdx: nat
    var isInitialized: bool
    /** The index blocks in the trusted memory region. */
    const next: array<uint32>
    /** Mapping memory may fail at any time, unless it is reliable. */
    const reliable: bool
    /** The free list, from head to tail. */
    ghost var free: seq<nat>

    ghost predicate Valid()
      reads this, next
    {
      && isInitialized
      && 0 < nrBlocks <= next.Length && nrBlocks < 0x8000_0000
      && startPoolAddr + INDEX_BLOCK_SIZE * nrBlocks <= endPoolAddr
      && endPoolAddr <= startPoolAddr + INDEX_BLOCK_SIZE * next.Length && endPoolAddr < startPoolAddr + 0x1_0000_0000
      && endCrcAddr >= startCrcAddr + CRC_BLOCK_SIZE * nrBlocks
      && Linked(next[..], free)
      && (forall k :: 0 <= k < |free| ==> free[k] < nrBlocks)
      && freeHeadIdx == free[0] && freeTailIdx == free[|free| - 1]
    }

    constructor (blocks: nat, reliable: bool)
      ensures !isInitialized && fresh(next) && next.Length == blocks && this.reliable == reliable
    {
      this.reliable := reliable;
      startCrcAddr, endCrcAddr, startPoolAddr, endPoolAddr := 0, 0, 0, 0;
      nrBlocks, freeHeadIdx, freeTailIdx := 0, 0, 0;
      isInitialized := false;
      next := new uint32[blocks](_ => 0);
      free := [];
    }

    method MapMemory() returns (mapped: bool)
      ensures reliable ==> mapped
    {
      mapped := *;
      mapped := mapped || reliable;
    }

    function IdxToAddr64(idx: nat): nat
      reads this
    {
      startPoolAddr + idx * INDEX_BLOCK_SIZE
    }

    function IdxCrcBlockToAddr64(idx: nat): nat
      reads this
    {
      startCrcAddr + idx * CRC_BLOCK_SIZE
    }

    function Addr64ToIdx(addr: nat): (idx: nat)
      requires addr >= startPoolAddr
      reads this
      ensures 4 * idx <= addr - startPoolAddr < 4 * (idx + 1)
    {
      (addr - startPoolAddr) / INDEX_BLOCK_SIZE
    }

    /** The block a CRC address falls into, if it is in range. */
    function Addr64CrcToIdx(addr: nat): (idx: int)
      reads this
      ensures idx < 0 <==> addr == 0 || addr > endCrcAddr || addr < startCrcAddr
      ensures idx >= 0 ==> 8 * idx <= addr - startCrcAddr < 8 * (idx + 1)
    {
      if addr == 0 || addr > endCrcAddr || addr < startCrcAddr then -1 else (addr - startCrcAddr) / CRC_BLOCK_SIZE
    }

    /** Every block on the free list, in order. */
    method Init(startAddrPool: nat, startAddrCrc: nat, size: nat) returns (status: EsStatus)
      requires size <= INDEX_BLOCK_SIZE * next.Length && size < 0x1_0000_0000 && size != INDEX_BLOCK_SIZE
      modifies this, next
      ensures size == 0 || startAddrPool % 4 != 0 || size % 4 != 0 ==> status == InvalidParams
      ensures size != 0 && startAddrPool % 4 == 0 && size % 4 == 0 ==> status == Success || status == MapFailed
      ensures reliable ==> status != MapFailed
      ensures status != Success ==> isInitialized == old(isInitialized) && next[..] == old(next[..])
      ensures status == InvalidParams ==> unchanged(this)
      ensures status == Success ==> Valid() && nrBlocks == size / 8 && free == seq(nrBlocks, i => i)
      ensures status == Success ==> startPoolAddr == startAddrPool && startCrcAddr == startAddrCrc
    {
      if size == 0 || startAddrPool % INDEX_BLOCK_SIZE != 0 || size % INDEX_BLOCK_SIZE != 0 {
        return InvalidParams;
      }
      nrBlocks := size / CRC_BLOCK_SIZE;
      startPoolAddr, endPoolAddr := startAddrPool, startAddrPool + size;
      startCrcAddr, endCrcAddr := startAddrCrc, startAddrCrc + size;
      freeHeadIdx := 0;
      var mapped := MapMemory();
      if !mapped {
        return MapFailed;
      }
      freeTailIdx := LinkBlocks(nrBlocks);
      isInitialized := true;
      free := seq(nrBlocks, i => i);
      return Success;
    }

    /** Links blocks 0 to n - 1, each to the one after it. */
    method LinkBlocks(n: nat) returns (tail: nat)
      requires 0 < n <= next.Length && n < 0x8000_0000
      modifies next
      ensures tail == n - 1 && Linked(next[..], seq(n, i => i))
    {
      var i := 0;
      while i < n
        invariant i <= n
        invariant forall k :: 0 <= k < i ==> next[k] == k + 1
      {
        next[i] := i + 1;
        i := i + 1;
      }
      tail := i - 1;
      next[tail] := INVALID_BLOCK;
    }

    /** Takes the head off the free list; a list of one block counts as empty. */
    method Alloc() returns (addr: nat, index: nat, crcAddr: nat, ghost taken: bool)
      requires Valid()
      modifies this, next
      ensures Valid() && unchanged(`nrBlocks, `startPoolAddr, `endPoolAddr, `startCrcAddr, `endCrcAddr)
      ensures taken ==> |old(free)| > 1 && free == old(free)[1..]
      ensures taken ==> next[..] == old(next[..]) || next[..] == old(next[..])[old(free[0]) := INVALID_BLOCK]
      ensures !taken ==> free == old(free) && next[..] == old(next[..]) && addr == 0
      ensures |old(free)| == 1 ==> !taken
      ensures reliable && |old(free)| > 1 ==> taken && addr == IdxToAddr64(old(free)[0])
      ensures addr != 0 ==> taken && index == old(free)[0] && next[index] == INVALID_BLOCK
      ensures addr != 0 ==> addr == IdxToAddr64(index) && crcAddr == IdxCrcBlockToAddr64(index)
      ensures addr != 0 ==> addr == startPoolAddr + 4 * index && crcAddr == startCrcAddr + 8 * index
    {
      addr, index, crcAddr, taken := 0, 0, 0, false;
      if !isInitialized {
        return;
      }
      LinkedIsAcyclic(next[..], free);
      if freeHeadIdx == freeTailIdx {
        return;
      }
      assert |free| > 1;
      var mapped := MapMemory();
      if !mapped {
        return;
      }
      DropHead(next[..], free);
      var blockIdx := freeHeadIdx;
      freeHeadIdx := next[freeHeadIdx];
      free := free[1..];
      taken := true;
      mapped := MapMemory();
      if !mapped {
        return;
      }
      WriteElsewhere(next[..], free, blockIdx, INVALID_BLOCK);
      next[blockIdx] := INVALID_BLOCK;
      assert next[..] == old(next[..])[blockIdx := INVALID_BLOCK];
      index := blockIdx;
      crcAddr := IdxCrcBlockToAddr64(blockIdx);
      addr := IdxToAddr64(blockIdx);
    }

    /** The two writes of an append, before each of which memory may fail to be mapped. */
    method WriteTail(idx: nat) returns (status: EsStatus, ghost writes: nat)
      requires freeTailIdx < next.Length && idx < next.Length && idx < INVALID_BLOCK
      modifies this`freeTailIdx, next
      ensures status == if writes == 2 then Success else MapFailed
      ensures writes <= 2 && (reliable ==> writes == 2)
      ensures freeTailIdx == if writes == 0 then old(freeTailIdx) else idx
      ensures next[..] == AfterWrites(old(next[..]), old(freeTailIdx), idx, writes)
    {
      writes := 0;
      var mapped := MapMemory();
      if !mapped {
        return MapFailed, writes;
      }
      next[freeTailIdx] := idx;
      freeTailIdx := idx;
      writes := 1;
      mapped := MapMemory();
      if !mapped {
        return MapFailed, writes;
      }
      next[idx] := INVALID_BLOCK;
      writes := 2;
      return Success, writes;
    }

    /** Appends a block to the free list. After both writes the list is linked, whatever the block was before; a block
        that is on the list already cuts it. */
    method AddTail(idx: nat) returns (status: EsStatus, ghost writes: nat)
      requires Valid() && idx < next.Length && idx < INVALID_BLOCK
      modifies this`freeTailIdx, this`free, next
      ensures status == if writes == 2 then Success else MapFailed
      ensures writes <= 2 && (reliable ==> writes == 2)
      ensures freeTailIdx == if writes == 0 then old(freeTailIdx) else idx
      ensures next[..] == AfterWrites(old(next[..]), old(freeTailIdx), idx, writes)
      ensures free == ListAfter(old(free), idx, writes)
      ensures writes != 1 || Alone(old(next[..]), old(free), idx) ==> Linked(next[..], free)
      ensures (writes == 0 || idx < nrBlocks) && Linked(next[..], free) ==> Valid()
    {
      ghost var before, list := next[..], free;
      status, writes := WriteTail(idx);
      free := ListAfter(list, idx, writes);
      LinkedAfter(before, list, idx, writes);
      if idx < nrBlocks {
        WithTailBelow(list, idx, nrBlocks);
      }
    }

    /** Frees a block by its address; addresses outside the pool are ignored. A block that was taken is on the free list
        then, unless memory cannot be mapped; any other block has the same two writes done to it. */
    method Free(block: nat) returns (ghost writes: nat)
      requires Valid()
      modifies this`freeTailIdx, this`free, next
      ensures writes <= 2 && (writes > 0 ==> startPoolAddr <= block < endPoolAddr)
      ensures writes == 0 ==>
        Valid() && unchanged(`freeTailIdx) && free == old(free) && next[..] == old(next[..])
      ensures startPoolAddr <= block < endPoolAddr ==>
        var idx := old(Addr64ToIdx(block));
        && idx < next.Length && freeTailIdx == (if writes == 0 then old(freeTailIdx) else idx)
        && free == ListAfter(old(free), idx, writes)
        && next[..] == AfterWrites(old(next[..]), old(freeTailIdx), idx, writes)
        && (writes != 1 || Alone(old(next[..]), old(free), idx) ==>
              Linked(next[..], free) && (idx < nrBlocks ==> Valid()))
      ensures reliable && startPoolAddr <= block < endPoolAddr ==> writes == 2
    {
      writes := 0;
      if startPoolAddr <= block < endPoolAddr {
        var status;
        status, writes := AddTail(Addr64ToIdx(block));
      }
    }

    /** Walks along the list of a guest and makes each block the tail in turn. */
    method LinkList(start: uint32, end: uint32, expected: nat, ghost list: seq<nat>) returns (status: EsStatus)
      requires freeTailIdx < next.Length && freeTailIdx !in list
      requires start != INVALID_BLOCK && end != INVALID_BLOCK && Linked(next[..], list) && Distinct(list)
      requires |list| == expected && list[0] == start && list[|list| - 1] == end
      modifies this`freeTailIdx, next
      ensures status == Success && freeTailIdx == end
      ensures next[..] == old(next[..])[old(freeTailIdx) := start]
    {
      var index := start;
      var freeCount := 0;
      ghost var before, tail := next[..], freeTailIdx;
      while true
        invariant freeCount < expected && index == list[freeCount]
        invariant freeTailIdx == if freeCount == 0 then tail else list[freeCount - 1]
        invariant next[..] == if freeCount == 0 then before else before[tail := start]
        decreases expected - freeCount
      {
        if freeCount > 0 {
          StepAlong(before, list, freeCount - 1, tail, start);
        }
        next[freeTailIdx] := index;
        assert next[..] == before[tail := start];
        freeTailIdx := index;
        freeCount := freeCount + 1;
        if index == end {
          assert freeCount == |list|;
          break;
        }
        if freeCount >= expected {
          assert false;
          return InvalidParams;
        }
        StepAlong(before, list, freeCount - 1, tail, start);
        index := next[index];
        if index == INVALID_BLOCK {
          break;
        }
      }
      return Success;
    }

    /** Gives the whole list of a guest back. */
    method FreeList(start: uint32, end: uint32, expected: nat, ghost list: seq<nat>) returns (status: EsStatus)
      requires Valid()
      requires start != INVALID_BLOCK && end != INVALID_BLOCK ==>
        && Linked(next[..], list) && |list| == expected && list[0] == start && list[|list| - 1] == end
        && forall k :: 0 <= k < |list| ==> list[k] < nrBlocks && list[k] !in free
      modifies this, next
      ensures Valid() && unchanged(`nrBlocks, `startPoolAddr, `endPoolAddr, `startCrcAddr, `endCrcAddr)
      ensures start == INVALID_BLOCK || end == INVALID_BLOCK ==> status == InvalidParams
      ensures start != INVALID_BLOCK && end != INVALID_BLOCK ==> status == Success || status == MapFailed
      ensures reliable ==> status != MapFailed
      ensures status == Success ==>
        free == old(free) + list && next[..] == old(next[..])[old(freeTailIdx) := start]
      ensures status != Success ==> free == old(free) && next[..] == old(next[..])
    {
      if start == INVALID_BLOCK || end == INVALID_BLOCK {
        return InvalidParams;
      }
      var mapped := MapMemory();
      if !mapped {
        return MapFailed;
      }
      ghost var before, all := next[..], free + list;
      LinkedIsAcyclic(before, list);
      JoinLists(before, free, list);
      status := LinkList(start, end, expected, list);
      assert all[|all| - 1] == list[|list| - 1];
      free := all;
    }

    /** Looks for the block of a CRC address in the list of a guest: at most one step per VCPU, and found exactly
        when the block is on the list. */
    method FindCrcInList(start: uint32, end: uint32, crc: nat, expected: nat, ghost list: seq<nat>)
      returns (status: EsStatus, found: bool, ghost steps: nat)
      requires Valid()
      requires start != INVALID_BLOCK && end != INVALID_BLOCK ==>
        Linked(next[..], list) && |list| == expected && list[0] == start && list[|list| - 1] == end
      ensures start == INVALID_BLOCK || end == INVALID_BLOCK ==> status == InvalidParams
      ensures start != INVALID_BLOCK && end != INVALID_BLOCK && Addr64CrcToIdx(crc) < 0 ==> status == InvalidAddress
      ensures start != INVALID_BLOCK && end != INVALID_BLOCK && Addr64CrcToIdx(crc) >= 0 ==>
        status == Success || status == MapFailed
      ensures reliable ==> status != MapFailed
      ensures status == Success ==> (found <==> Addr64CrcToIdx(crc) in list)
      ensures steps <= expected
    {
      found, steps := false, 0;
      if start == INVALID_BLOCK || end == INVALID_BLOCK {
        return InvalidParams, found, steps;
      }
      var searchIndex := Addr64CrcToIdx(crc);
      if searchIndex < 0 {
        return InvalidAddress, found, steps;
      }
      var mapped := MapMemory();
      if !mapped {
        return MapFailed, found, steps;
      }
      LinkedIsAcyclic(next[..], list);
      status := Success;
      var index, searchCount := start, 0;
      while true
        invariant status == Success && !found && searchCount < expected && index == list[searchCount]
        invariant forall k :: 0 <= k < searchCount ==> list[k] != searchIndex
        invariant steps == searchCount
        decreases expected - searchCount
      {
        steps := steps + 1;
        if index == searchIndex {
          found := true;
          break;
        }
        searchCount := searchCount + 1;
        if index == end {
          break;
        }
        if searchCount >= expected {
          assert false;
          status := InvalidParams;
          break;
        }
        index := next[index];
        if index == INVALID_BLOCK {
          break;
        }
      }
    }
  }
}
