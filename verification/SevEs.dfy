/** Setting up and validating the register save areas (VMSAs) of SEV-ES guests. */
module SevEs {
  import opened Word
  import opened Octets
  import opened OctetBits
  import opened VcpuPool
  import opened VcpuOwnership
  import Crc
  import CrcLanes

  const VMSA_SIZE: nat := 4096
  const VMSA_CRC_SIZE: nat := 0xFC0
  const VMSA_ZEROS: nat := 0x380
  const VMSA_CRC_PADDR: nat := 0x388
  const NO_CRC_PADDR: int := 0xFFFF_FFFF_FFFF_FFFF

  /** The checksum of a VMSA, over all but its last 64 octets. */
  function Checksum(vmsa: seq<uint8>): bv64
    requires |vmsa| >= VMSA_CRC_SIZE
  {
    Crc.Crc64(Narrow(vmsa[..VMSA_CRC_SIZE]))
  }

  function QuadAt(s: seq<uint8>, i: nat): uint64
    requires i + 8 <= |s|
  {
    WordAt(s, i) + 0x1_0000_0000 * WordAt(s, i + 4) as int
  }

  /** `after` is `before` with the two checksum fields set. */
  ghost predicate FieldsSet(before: seq<uint8>, after: seq<uint8>, crcAddr: int) {
    && |after| == |before| >= 4096
    && QuadAt(after, 0x380) == 0 && QuadAt(after, 0x388) == crcAddr
    && forall k :: 0 <= k < |after| && !(0x380 <= k < 0x390) ==> after[k] == before[k]
  }

  method SetFields(vmsa: array<uint8>, crcAddr: uint64)
    requires vmsa.Length >= VMSA_SIZE
    modifies vmsa
    ensures FieldsSet(old(vmsa[..]), vmsa[..], crcAddr)
  {
    PutWord(vmsa, VMSA_ZEROS, 0);
    ghost var s0 := vmsa[..];
    PutWord(vmsa, VMSA_ZEROS + 4, 0);
    ghost var s1 := vmsa[..];
    PutWord(vmsa, VMSA_CRC_PADDR, crcAddr % 0x1_0000_0000);
    ghost var s2 := vmsa[..];
    PutWord(vmsa, VMSA_CRC_PADDR + 4, crcAddr / 0x1_0000_0000);
    assert WordAt(vmsa[..], VMSA_ZEROS) == WordAt(s0, VMSA_ZEROS);
    assert WordAt(vmsa[..], VMSA_ZEROS + 4) == WordAt(s1, VMSA_ZEROS + 4);
    assert WordAt(vmsa[..], VMSA_CRC_PADDR) == WordAt(s2, VMSA_CRC_PADDR);
  }

  /** Every guest's block holds the checksum of the VMSA that names it. */
  ghost predicate Summed(crc: seq<bv64>, owner: seq<Owner>, summed: seq<seq<uint8>>, startCrc: nat) {
    && |owner| == |summed| <= |crc|
    && forall i :: 0 <= i < |owner| && owner[i].Guest? ==> SummedAt(crc[i], summed[i], startCrc + CRC_BLOCK_SIZE * i)
  }

  /** The VMSA names the block at `crcAddr`, and `crc` is its checksum. */
  ghost predicate Matches(crc: bv64, vmsa: seq<uint8>, crcAddr: nat) {
    |vmsa| >= VMSA_SIZE && crc == Checksum(vmsa) && QuadAt(vmsa, VMSA_CRC_PADDR) == crcAddr
  }

  /** A proof that does not mention `Matches` takes this as a whole. */
  ghost predicate SummedAt(crc: bv64, vmsa: seq<uint8>, crcAddr: nat) {
    forall v :: v == vmsa ==> Matches(crc, v, crcAddr)
  }

  lemma PeekInside(crc: bv64, vmsa: seq<uint8>, crcAddr: nat)
    requires SummedAt(crc, vmsa, crcAddr)
    ensures Matches(crc, vmsa, crcAddr)
  {
    assert Matches(crc, vmsa, crcAddr);
  }

  class EsPlatform {
    const pool: Pool
    /** The checksum blocks in the trusted memory region. */
    const crc: array<bv64>
    var guests: seq<EsGuest>
    /** Who owns what. */
    ghost var st: PoolState
    /** For each block of a guest, the VMSA that its checksum was computed from. */
    ghost var summed: seq<seq<uint8>>

    ghost predicate Valid()
      reads this, pool, pool.next, crc
    {
      && pool.Valid() && (crc as object) != pool.next
      && Consistent(st) && st.next == pool.next[..] && st.free == pool.free && |st.owner| == pool.nrBlocks
      && st.guests == guests
      && Summed(crc[..], st.owner, summed, pool.startCrcAddr)
      && 0 < pool.startCrcAddr && pool.startCrcAddr + CRC_BLOCK_SIZE * pool.nrBlocks < TWO_64
    }

    /** The pool right after its initialisation, with guests that have no VCPUs. */
    constructor (pool: Pool, crc: array<bv64>, guests: seq<EsGuest>)
      requires pool.Valid() && pool.free == seq(pool.nrBlocks, i => i) && crc.Length >= pool.nrBlocks
      requires (crc as object) != pool.next
      requires 0 < pool.startCrcAddr && pool.startCrcAddr + CRC_BLOCK_SIZE * pool.nrBlocks < TWO_64
      requires forall g :: 0 <= g < |guests| ==> GuestOk(pool.next[..], guests[g], [])
      ensures Valid() && this.pool == pool && this.crc == crc && this.guests == guests
      ensures st == Initial(pool.next[..], pool.nrBlocks, guests)
    {
      this.pool, this.crc, this.guests := pool, crc, guests;
      st := Initial(pool.next[..], pool.nrBlocks, guests);
      summed := seq(pool.nrBlocks, _ => []);
      InitialIsConsistent(pool.next[..], pool.nrBlocks, guests);
    }

    /** Memory can always be mapped, and no block has the address 0, which stands for a failure. */
    predicate Dependable()
      reads pool
    {
      pool.reliable && pool.startPoolAddr > 0
    }

    /** Takes a block from the pool. */
    method AllocBlock() returns (addr: nat, index: nat, crcAddr: nat)
      requires Valid()
      modifies this`st, pool, pool.next
      ensures Valid() && PoolFixed(pool)
      ensures addr != 0 ==> CanTake(old(st)) && index == old(st).free[0]
      ensures addr != 0 ==> st == Taken(old(st), old(st).next[index := INVALID_BLOCK], Held) && IsHeld(st, index)
      ensures addr != 0 ==> addr == pool.IdxToAddr64(index) && crcAddr == pool.IdxCrcBlockToAddr64(index)
      ensures addr == 0 ==> BlockGone(old(st), st)
      ensures |old(st).free| == 1 ==> addr == 0 && st == old(st)
      ensures Dependable() && |old(st).free| > 1 ==> addr != 0
    {
      ghost var taken;
      ghost var p, startCrc, sums := st, pool.startCrcAddr, crc[..];
      FreeList(p);
      addr, index, crcAddr, taken := pool.Alloc();
      if taken {
        ghost var to := if addr == 0 then Lost else Held;
        TakeKeeps(p, pool.next[..], to);
        st := Taken(p, pool.next[..], to);
        assert crc[..] == sums;
        SummedWithout(sums, p.owner, summed, startCrc, p.free[0], to);
      }
    }

    /** Gives a held block back by its address. If the memory cannot be mapped, the block is lost. */
    method FreeBlock(addr: nat, ghost index: uint32)
      requires Valid() && IsHeld(st, index) && addr == pool.IdxToAddr64(index)
      modifies this`st, pool, pool.next
      ensures Valid() && PoolFixed(pool)
      ensures BlockBack(old(st), st, index)
      ensures pool.reliable ==> |old(st).free| > 0 && old(st).free[|old(st).free| - 1] < |old(st).next|
      ensures pool.reliable ==> st == Returned(old(st), index)
    {
      ghost var p, startCrc, sums := st, pool.startCrcAddr, crc[..];
      ReadyToReturn(p, index);
      ghost var writes := FreeTaken(pool, addr, index);
      ReturnedBy(p, index, writes);
      st := if writes > 0 then Returned(p, index) else Forgotten(p, index);
      assert crc[..] == sums;
      SummedWithout(sums, p.owner, summed, startCrc, index, if writes > 0 then Pooled else Lost);
    }

    /** The writes to the index blocks; they fail on the way, or leave the links with the block at the end. */
    method WriteLinks(g: nat, index: uint32) returns (status: EsStatus)
      requires g < |guests| && CanAppend(st, g, index) && st.next == pool.next[..]
      requires GuestOk(st.next, guests[g], st.lists[g])
      modifies pool.next
      ensures status == Success || status == InvalidParams || status == MapFailed
      ensures pool.next[..] == if status == Success then Appended(st, g, index).next else st.next
      ensures Dependable() ==> status == Success
    {
      pool.next[index] := INVALID_BLOCK;
      assert pool.next[..] == st.next;
      if guests[g].headIndex != INVALID_BLOCK {
        var tailBlock := pool.IdxToAddr64(guests[g].tailIndex);
        if tailBlock == 0 {
          return InvalidParams;
        }
        var mapped := pool.MapMemory();
        if !mapped {
          return MapFailed;
        }
        pool.next[guests[g].tailIndex] := index;
      }
      return Success;
    }

    /** Links a held block behind the list of a guest. */
    method LinkBlock(g: nat, index: uint32) returns (status: EsStatus)
      requires Valid() && CanAppend(st, g, index) && index < |summed| && index < crc.Length
      requires SummedAt(crc[index], summed[index], pool.IdxCrcBlockToAddr64(index))
      modifies this`guests, this`st, pool.next
      ensures Valid() && (status == Success || status == InvalidParams || status == MapFailed)
      ensures status == Success ==> st == Appended(old(st), g, index)
      ensures status != Success ==> st == old(st)
      ensures Dependable() ==> status == Success
    {
      ghost var p, sums := st, crc[..];
      GuestList(p, g);
      AppendKeeps(p, g, index);
      FreeList(Appended(p, g, index));
      status := WriteLinks(g, index);
      if status != Success {
        return;
      }
      guests := guests[g := WithVcpu(guests[g], index)];
      st := Appended(p, g, index);
      assert crc[..] == sums;
      SummedWith(sums, p.owner, summed, pool.startCrcAddr, index, g);
    }

    /** Writes the checksum of a VMSA to its block. */
    method WriteSum(vmsa: array<uint8>, index: uint32)
      requires Valid() && IsHeld(st, index) && index < |summed| && index < crc.Length
      requires vmsa.Length >= VMSA_SIZE && QuadAt(vmsa[..], VMSA_CRC_PADDR) == pool.IdxCrcBlockToAddr64(index)
      requires (vmsa as object) != crc
      modifies this`summed, crc
      ensures Valid() && summed == old(summed)[index := vmsa[..]]
      ensures SummedAt(crc[index], summed[index], pool.IdxCrcBlockToAddr64(index))
    {
      ghost var sums, was := crc[..], summed;
      var sum := SumOf(vmsa);
      crc[index] := sum;
      assert crc[..] == sums[index := sum];
      summed := summed[index := vmsa[..]];
      SumKeeps(sums, st.owner, was, pool.startCrcAddr, index, sum, vmsa[..]);
    }

    /** Computes the checksum of a VMSA into its block, and links the block behind the list of the guest. */
    method SumAndLink(g: nat, vmsa: array<uint8>, index: uint32) returns (status: EsStatus)
      requires Valid() && CanAppend(st, g, index) && index < |summed| && index < crc.Length
      requires vmsa.Length >= VMSA_SIZE && QuadAt(vmsa[..], VMSA_CRC_PADDR) == pool.IdxCrcBlockToAddr64(index)
      requires (vmsa as object) != crc && (vmsa as object) != pool.next
      modifies this`guests, this`st, this`summed, pool.next, crc
      ensures Valid() && (status == Success || status == InvalidParams || status == MapFailed)
      ensures status == Success ==> st == Appended(old(st), g, index) && summed == old(summed)[index := vmsa[..]]
      ensures status != Success ==>
        st == old(st) && (summed == old(summed) || summed == old(summed)[index := vmsa[..]])
      ensures Dependable() ==> status == Success
    {
      var mapped := pool.MapMemory();
      if !mapped {
        return MapFailed;
      }
      mapped := pool.MapMemory();
      if !mapped {
        return MapFailed;
      }
      WriteSum(vmsa, index);
      status := LinkBlock(g, index);
    }

    /** Sets up a VMSA. A guest with a pool gets the head of the free list; on any failure no guest has changed. */
    method SetupVmsa(g: nat, vmsa: array<uint8>) returns (status: EsStatus)
      requires Valid() && g < |guests| && (vmsa as object) != crc && (vmsa as object) != pool.next
      modifies this, pool, pool.next, crc, vmsa
      ensures Valid() && PoolFixed(pool)
      ensures !old(guests[g].esEnabled) ==> status == Unsupported
      ensures old(guests[g].esEnabled) && vmsa.Length < VMSA_SIZE ==> status == InvalidLength
      ensures status == Unsupported || status == InvalidLength || status == ResourceLimit ==> vmsa[..] == old(vmsa[..])
      ensures old(guests[g].esEnabled) && vmsa.Length >= VMSA_SIZE && old(guests[g].snp) ==>
        status == Success && FieldsSet(old(vmsa[..]), vmsa[..], NO_CRC_PADDR) && st == old(st) && summed == old(summed)
      ensures old(guests[g].esEnabled) && vmsa.Length >= VMSA_SIZE && !old(guests[g].snp) && |old(st).free| == 1 ==>
        status == ResourceLimit && st == old(st)
      ensures Dependable() && old(guests[g].esEnabled) && vmsa.Length >= VMSA_SIZE && |old(st).free| > 1 ==>
        status == Success
      ensures status == Success && !old(guests[g].snp) ==>
        SetupDone(old(st), st, g, old(summed), summed, old(vmsa[..]), vmsa[..], pool.startCrcAddr)
      ensures status != Success ==> NobodyGained(old(st), st)
      ensures status != Success ==> SameForGuests(st, old(summed), summed)
    {
      if !guests[g].esEnabled {
        return Unsupported;
      }
      if vmsa.Length < VMSA_SIZE {
        return InvalidLength;
      }
      if guests[g].snp {
        SetFields(vmsa, NO_CRC_PADDR);
        return Success;
      }
      status := SetupPooled(g, vmsa);
    }

    method SetupPooled(g: nat, vmsa: array<uint8>) returns (status: EsStatus)
      requires Valid() && g < |guests| && (vmsa as object) != crc && (vmsa as object) != pool.next
      requires vmsa.Length >= VMSA_SIZE
      modifies this, pool, pool.next, crc, vmsa
      ensures Valid() && PoolFixed(pool)
      ensures status == Success || status == ResourceLimit || status == InvalidParams || status == MapFailed
      ensures |old(st).free| == 1 ==> status == ResourceLimit && st == old(st)
      ensures status == ResourceLimit ==> vmsa[..] == old(vmsa[..])
      ensures Dependable() && |old(st).free| > 1 ==> status == Success
      ensures status == Success ==>
        SetupDone(old(st), st, g, old(summed), summed, old(vmsa[..]), vmsa[..], pool.startCrcAddr)
      ensures status != Success ==> NobodyGained(old(st), st)
      ensures status != Success ==> SameForGuests(st, old(summed), summed)
    {
      ghost var p := st;
      var addr, index, crcAddr := AllocBlock();
      if addr == 0 {
        GoneIsNobody(p, st);
        return ResourceLimit;
      }
      ghost var original := vmsa[..];
      SetFields(vmsa, crcAddr);
      status := SetupHeld(g, vmsa, addr, index, crcAddr, p, original);
    }

    /** The block has been taken; on failure it is given back. */
    method SetupHeld(g: nat, vmsa: array<uint8>, addr: nat, index: uint32, crcAddr: nat, ghost p: PoolState,
                     ghost original: seq<uint8>) returns (status: EsStatus)
      requires Valid() && g < |guests| && (vmsa as object) != crc && (vmsa as object) != pool.next
      requires vmsa.Length >= VMSA_SIZE && Consistent(p) && CanTake(p) && index == p.free[0] < INVALID_BLOCK
      requires st == Taken(p, p.next[index := INVALID_BLOCK], Held) && IsHeld(st, index)
      requires addr == pool.IdxToAddr64(index) && crcAddr == pool.IdxCrcBlockToAddr64(index)
      requires FieldsSet(original, vmsa[..], crcAddr)
      modifies this, pool, pool.next, crc
      ensures Valid() && PoolFixed(pool) && vmsa[..] == old(vmsa[..])
      ensures status == Success || status == InvalidParams || status == MapFailed
      ensures Dependable() ==> status == Success
      ensures status == Success ==>
        SetupDone(p, st, g, old(summed), summed, original, vmsa[..], pool.startCrcAddr)
      ensures status != Success ==> NobodyGained(p, st) && SameForGuests(st, old(summed), summed)
    {
      GuestList(st, g);
      status := SumAndLink(g, vmsa, index);
      if status != Success {
        Release(addr, index, p, old(summed), vmsa[..]);
      }
    }

    /** Gives back a block that was taken for a set-up, whose checksum may have been written. */
    method Release(addr: nat, ghost index: uint32, ghost p: PoolState, ghost before: seq<seq<uint8>>,
                   ghost vmsa: seq<uint8>)
      requires Valid() && Consistent(p) && CanTake(p) && index == p.free[0] < INVALID_BLOCK
      requires st == Taken(p, p.next[index := INVALID_BLOCK], Held) && IsHeld(st, index)
      requires addr == pool.IdxToAddr64(index) && index < |before|
      requires summed == before || summed == before[index := vmsa]
      modifies this`st, pool, pool.next
      ensures Valid() && PoolFixed(pool)
      ensures NobodyGained(p, st) && SameForGuests(st, before, summed)
    {
      ghost var now := summed;
      FreeBlock(addr, index);
      BackIsNobody(p, st, index);
      SumsKept(st, before, now, index, vmsa);
    }

    /** Decommissioning a guest gives its whole list back; the guest is then cleared for its next launch. */
    method Decommission(g: nat) returns (status: EsStatus)
      requires Valid() && g < |guests|
      modifies this`guests, this`st, pool, pool.next
      ensures Valid() && PoolFixed(pool)
      ensures status == Success || (status == MapFailed && !pool.reliable && st == old(st))
      ensures status == Success && old(guests[g]).numVcpus == 0 ==> st == old(st)
      ensures status == Success && old(guests[g]).numVcpus != 0 ==>
        CanGiveBack(old(st), g) && st == GivenBack(old(st), g)
    {
      ghost var p, sums, startCrc := st, crc[..], pool.startCrcAddr;
      GuestList(p, g);
      var e := guests[g];
      if e.headIndex != INVALID_BLOCK && e.tailIndex != INVALID_BLOCK {
        GiveBackKeeps(p, g);
        FreeList(p);
        status := FreeGuestList(e, p.lists[g], g);
        if status != Success {
          return;
        }
        st := GivenBack(p, g);
        assert crc[..] == sums;
        SummedReleased(sums, p.owner, summed, startCrc, p.lists[g]);
        guests := guests[g := WithoutVcpus(e)];
      } else {
        status := Success;
      }
    }

    method FreeGuestList(e: EsGuest, ghost list: seq<nat>, ghost g: nat) returns (status: EsStatus)
      requires pool.Valid() && Consistent(st) && st.next == pool.next[..] && st.free == pool.free
      requires |st.owner| == pool.nrBlocks && g < |st.guests| && g < |st.lists| && list == st.lists[g] != []
      requires GuestOk(st.next, e, list) && Owns(st.owner, Guest(g), list)
      modifies pool, pool.next
      ensures pool.Valid() && PoolFixed(pool)
      ensures status == Success || (status == MapFailed && !pool.reliable)
      ensures status == Success ==> pool.free == old(pool.free) + list
      ensures status == Success ==> pool.next[..] == old(pool.next[..])[old(pool.freeTailIdx) := e.headIndex]
      ensures status != Success ==> pool.free == old(pool.free) && pool.next[..] == old(pool.next[..])
    {
      LookInside(st);
      forall k | 0 <= k < |list|
        ensures list[k] < pool.nrBlocks && list[k] !in pool.free
      {
        assert st.owner[list[k]] == Guest(g);
      }
      status := pool.FreeList(e.headIndex, e.tailIndex, e.numVcpus, list);
    }

    /** The block that a VMSA names: the one its checksum address falls into, if it is one of the guest's. */
    ghost predicate Names(g: nat, vmsa: seq<uint8>, i: int)
      reads this, pool
    {
      && |vmsa| >= VMSA_SIZE && g < |st.lists| && i >= 0
      && i == pool.Addr64CrcToIdx(QuadAt(vmsa, VMSA_CRC_PADDR)) && i in st.lists[g]
    }

    /** The VMSA names the start of the block. */
    ghost predicate Aligned(vmsa: seq<uint8>, i: int)
      requires |vmsa| >= VMSA_SIZE
      reads this, pool
    {
      QuadAt(vmsa, VMSA_CRC_PADDR) == pool.startCrcAddr + CRC_BLOCK_SIZE * i
    }

    /** The VMSA is as one of the guest's VMSAs was when it was set up. */
    ghost predicate Untouched(g: nat, vmsa: seq<uint8>)
      reads this
    {
      OnList(st.lists, summed, g, vmsa)
    }

    lemma UntouchedBlock(g: nat, vmsa: seq<uint8>) returns (k: nat)
      requires Valid() && g < |guests| && Untouched(g, vmsa)
      ensures k < |summed| && summed[k] == vmsa && g < |st.lists| && k in st.lists[g] && guests[g].numVcpus != 0
      ensures |vmsa| >= VMSA_SIZE && QuadAt(vmsa, VMSA_CRC_PADDR) == pool.startCrcAddr + CRC_BLOCK_SIZE * k
      ensures k < pool.nrBlocks
    {
      k :| k in st.lists[g] && k < |summed| && summed[k] == vmsa;
      GuestList(st, g);
      NamedIsSummed(crc[..], st.owner, summed, pool.startCrcAddr, k, g);
    }

    lemma UntouchedIsNamed(g: nat, vmsa: seq<uint8>) returns (k: nat)
      requires Valid() && g < |guests| && Untouched(g, vmsa)
      ensures |vmsa| >= VMSA_SIZE && guests[g].numVcpus != 0 && QuadAt(vmsa, VMSA_CRC_PADDR) != 0
      ensures Names(g, vmsa, k) && k < |summed| && summed[k] == vmsa && Aligned(vmsa, k)
    {
      k := UntouchedBlock(g, vmsa);
      BlockOfAddress(pool.startCrcAddr, k);
    }

    lemma BlockOfAddress(start: nat, k: nat)
      ensures (start + CRC_BLOCK_SIZE * k - start) / CRC_BLOCK_SIZE == k
    {
    }

    /** The VMSA names block `i` of the guest, and was accepted exactly if it has the checksum that its address reads; for
        the start of a block that is the checksum of the VMSA that was set up with it. */
    ghost predicate Judged(g: nat, vmsa: seq<uint8>, accepted: bool, i: int)
      requires |vmsa| >= VMSA_SIZE
      reads this, pool, crc
    {
      && Names(g, vmsa, i) && i < |summed| && QuadAt(vmsa, VMSA_CRC_PADDR) >= pool.startCrcAddr
      && Verdict(accepted, Checksum(vmsa), crc[..], QuadAt(vmsa, VMSA_CRC_PADDR) - pool.startCrcAddr)
      && (Aligned(vmsa, i) ==>
            |summed[i]| >= VMSA_SIZE && (accepted <==> Checksum(vmsa) == Checksum(summed[i])))
    }

    /** Validates a VMSA: it must name a block of the guest, and have the checksum that the block holds. */
    method ValidateVmsa(g: nat, vmsa: array<uint8>) returns (status: EsStatus, ghost i: int)
      requires Valid() && g < |guests|
      ensures guests[g].numVcpus == 0 ==> status == InvalidParams
      ensures guests[g].numVcpus != 0 && vmsa.Length < VMSA_SIZE ==> status == InvalidLength
      ensures guests[g].numVcpus != 0 && vmsa.Length >= VMSA_SIZE ==>
        status == Success || status == InvalidAddress || status == BadMeasurement || status == MapFailed
      ensures status == Success || status == BadMeasurement ==>
        vmsa.Length >= VMSA_SIZE && Judged(g, vmsa[..], status == Success, i)
      ensures status == InvalidAddress ==> forall k :: !Names(g, vmsa[..], k)
      ensures Untouched(g, vmsa[..]) ==> status == Success || status == MapFailed
      ensures pool.reliable ==> status != MapFailed
    {
      i := -1;
      if Untouched(g, vmsa[..]) {
        ghost var k := UntouchedIsNamed(g, vmsa[..]);
      }
      if guests[g].numVcpus == 0 {
        return InvalidParams, i;
      }
      if vmsa.Length < VMSA_SIZE {
        return InvalidLength, i;
      }
      status, i := ValidateNamed(g, vmsa, vmsa[..]);
      if Untouched(g, vmsa[..]) {
        UntouchedPasses(g, vmsa[..], status, i);
      }
    }

    lemma UntouchedPasses(g: nat, text: seq<uint8>, status: EsStatus, i: int)
      requires Valid() && g < |guests| && Untouched(g, text) && |text| >= VMSA_SIZE
      requires status == Success || status == BadMeasurement ==> Judged(g, text, status == Success, i)
      requires status == InvalidAddress ==> forall k :: !Names(g, text, k)
      ensures status != BadMeasurement && status != InvalidAddress
    {
      var k := UntouchedIsNamed(g, text);
      assert Names(g, text, k);
    }

    /** The validation of a VMSA of a guest with VCPUs. */
    method ValidateNamed(g: nat, vmsa: array<uint8>, ghost text: seq<uint8>) returns (status: EsStatus, ghost i: int)
      requires Valid() && g < |guests| && guests[g].numVcpus != 0 && vmsa.Length >= VMSA_SIZE && text == vmsa[..]
      ensures status == Success || status == InvalidAddress || status == BadMeasurement || status == MapFailed
      ensures status == Success || status == BadMeasurement ==> Judged(g, text, status == Success, i)
      ensures status == InvalidAddress ==> forall k :: !Names(g, text, k)
      ensures pool.reliable ==> status != MapFailed
    {
      i := -1;
      var crcBlock := QuadAt(vmsa[..], VMSA_CRC_PADDR);
      if crcBlock == 0 {
        return InvalidAddress, i;
      }
      GuestList(st, g);
      var found;
      ghost var steps;
      status, found, steps := pool.FindCrcInList(guests[g].headIndex, guests[g].tailIndex, crcBlock,
                                                 guests[g].numVcpus, st.lists[g]);
      if status != Success {
        return;
      }
      if !found {
        return InvalidAddress, i;
      }
      i := pool.Addr64CrcToIdx(crcBlock);
      status := CheckBlock(g, vmsa, text, crcBlock, i);
    }

    /** The comparison for a block that was found on the list of the guest. */
    method CheckBlock(g: nat, vmsa: array<uint8>, ghost text: seq<uint8>, crcBlock: nat, ghost i: nat)
      returns (status: EsStatus)
      requires Valid() && g < |guests| && vmsa.Length >= VMSA_SIZE && text == vmsa[..]
      requires QuadAt(text, VMSA_CRC_PADDR) == crcBlock && Names(g, text, i)
      ensures status == Success || status == BadMeasurement || (status == MapFailed && !pool.reliable)
      ensures status != MapFailed ==> Judged(g, text, status == Success, i)
    {
      NamedBlock(g, text, i);
      var mapped := pool.MapMemory();
      if !mapped {
        return MapFailed;
      }
      status := CompareSums(vmsa, text, crcBlock);
      JudgeBlock(text, status == Success, i);
    }

    lemma NamedBlock(g: nat, text: seq<uint8>, i: nat)
      requires Valid() && g < |guests| && Names(g, text, i)
      ensures i < |summed| && i < crc.Length && QuadAt(text, VMSA_CRC_PADDR) >= pool.startCrcAddr
      ensures i == (QuadAt(text, VMSA_CRC_PADDR) - pool.startCrcAddr) / CRC_BLOCK_SIZE
      ensures Matches(crc[i], summed[i], pool.startCrcAddr + CRC_BLOCK_SIZE * i)
    {
      GuestList(st, g);
      NamedIsSummed(crc[..], st.owner, summed, pool.startCrcAddr, i, g);
    }

    lemma JudgeBlock(text: seq<uint8>, accepted: bool, i: nat)
      requires |text| >= VMSA_SIZE && i < |summed| && i < crc.Length
      requires QuadAt(text, VMSA_CRC_PADDR) >= pool.startCrcAddr
      requires Matches(crc[i], summed[i], pool.startCrcAddr + CRC_BLOCK_SIZE * i)
      requires Verdict(accepted, Checksum(text), crc[..], QuadAt(text, VMSA_CRC_PADDR) - pool.startCrcAddr)
      ensures Aligned(text, i) ==>
        |summed[i]| >= VMSA_SIZE && (accepted <==> Checksum(text) == Checksum(summed[i]))
    {
      if Aligned(text, i) {
        SummedVerdict(accepted, Checksum(text), crc[..], i, QuadAt(text, VMSA_CRC_PADDR) - pool.startCrcAddr, summed[i],
                      pool.startCrcAddr + CRC_BLOCK_SIZE * i);
      }
    }

    method CompareSums(vmsa: array<uint8>, ghost text: seq<uint8>, crcBlock: nat) returns (status: EsStatus)
      requires vmsa.Length >= VMSA_SIZE && text == vmsa[..] && crcBlock >= pool.startCrcAddr
      requires (crcBlock - pool.startCrcAddr) / CRC_BLOCK_SIZE < crc.Length
      ensures status == Success || status == BadMeasurement
      ensures Verdict(status == Success, Checksum(text), crc[..], crcBlock - pool.startCrcAddr)
    {
      var stored := ReadSum(crcBlock);
      var sum := SumOf(vmsa);
      status := if sum != stored then BadMeasurement else Success;
      Judge(sum, stored, crc[..], crcBlock - pool.startCrcAddr);
    }

    /** Reads eight octets of the checksum memory. What lies behind the last block is not modelled. */
    method ReadSum(addr: nat) returns (sum: bv64)
      requires addr >= pool.startCrcAddr && (addr - pool.startCrcAddr) / CRC_BLOCK_SIZE < crc.Length
      ensures Delivers(sum, crc[..], addr - pool.startCrcAddr)
    {
      var offset := addr - pool.startCrcAddr;
      if ReadsInside(crc.Length, offset) {
        sum := ReadAt(crc[..], offset);
      } else {
        sum := *;
      }
    }
  }

  /** A read of eight octets at this offset stays inside `blocks` blocks. */
  predicate ReadsInside(blocks: nat, offset: nat) {
    offset + 8 <= 8 * blocks
  }

  /** The octets of a block, the least significant one first. */
  function OctetsOf(w: bv64): (o: seq<bv64>)
    ensures |o| == 8
  {
    [w & 0xFF, (w >> 8) & 0xFF, (w >> 16) & 0xFF, (w >> 24) & 0xFF,
     (w >> 32) & 0xFF, (w >> 40) & 0xFF, (w >> 48) & 0xFF, w >> 56]
  }

  /** Eight octets as a block. */
  function BlockOf(a: bv64, b: bv64, c: bv64, d: bv64, e: bv64, f: bv64, g: bv64, h: bv64): bv64 {
    a | (b << 8) | (c << 16) | (d << 24) | (e << 32) | (f << 40) | (g << 48) | (h << 56)
  }

  /** The checksum memory, octet by octet. */
  function Memory(crc: seq<bv64>): (m: seq<bv64>)
    ensures |m| == 8 * |crc|
  {
    if crc == [] then [] else Memory(crc[..|crc| - 1]) + OctetsOf(crc[|crc| - 1])
  }

  /** The eight octets at an offset of a memory. */
  function EightAt(m: seq<bv64>, offset: nat): bv64
    requires offset + 8 <= |m|
  {
    BlockOf(m[offset], m[offset + 1], m[offset + 2], m[offset + 3], m[offset + 4], m[offset + 5], m[offset + 6],
            m[offset + 7])
  }

  /** What a read delivers: a block, or the upper part of one and the lower part of the next. */
  function ReadAt(crc: seq<bv64>, offset: nat): bv64
    requires ReadsInside(|crc|, offset)
  {
    EightAt(Memory(crc), offset)
  }

  lemma BlockRestored(w: bv64)
    ensures w == (w & 0xFF) | (((w >> 8) & 0xFF) << 8) | (((w >> 16) & 0xFF) << 16) | (((w >> 24) & 0xFF) << 24)
                 | (((w >> 32) & 0xFF) << 32) | (((w >> 40) & 0xFF) << 40) | (((w >> 48) & 0xFF) << 48)
                 | ((w >> 56) << 56)
  {
  }

  lemma Restored(w: bv64, m: seq<bv64>, at: nat)
    requires at + 8 <= |m| && m[at..at + 8] == OctetsOf(w)
    ensures EightAt(m, at) == w
  {
    var o := m[at..at + 8];
    assert m[at] == o[0] && m[at + 1] == o[1] && m[at + 2] == o[2] && m[at + 3] == o[3];
    assert m[at + 4] == o[4] && m[at + 5] == o[5] && m[at + 6] == o[6] && m[at + 7] == o[7];
    BlockRestored(w);
  }

  lemma {:induction false} BlockInMemory(crc: seq<bv64>, i: nat)
    requires i < |crc|
    ensures Memory(crc)[8 * i..8 * i + 8] == OctetsOf(crc[i])
  {
    var front := crc[..|crc| - 1];
    if i < |front| {
      BlockInMemory(front, i);
      assert Memory(crc)[8 * i..8 * i + 8] == Memory(front)[8 * i..8 * i + 8];
    }
  }

  /** At the start of a block the eight octets are the block. */
  lemma ReadBlock(crc: seq<bv64>, i: nat)
    requires i < |crc|
    ensures ReadAt(crc, 8 * i) == crc[i]
  {
    BlockInMemory(crc, i);
    Restored(crc[i], Memory(crc), 8 * i);
  }

  ghost predicate ReadsAs(sum: bv64, crc: seq<bv64>, offset: nat) {
    ReadsInside(|crc|, offset) ==> sum == ReadAt(crc, offset)
  }

  ghost predicate DecidedBy(equal: bool, sum: bv64, crc: seq<bv64>, offset: nat) {
    ReadsInside(|crc|, offset) ==> (equal <==> sum == ReadAt(crc, offset))
  }

  /** `sum` is what a read at this offset delivers, if it stays inside the blocks. */
  ghost predicate Delivers(sum: bv64, crc: seq<bv64>, offset: nat) {
    forall o :: o == offset ==> ReadsAs(sum, crc, o)
  }

  /** A comparison was decided by whether `sum` is what a read at this offset delivers. */
  ghost predicate Verdict(equal: bool, sum: bv64, crc: seq<bv64>, offset: nat) {
    forall o :: o == offset ==> DecidedBy(equal, sum, crc, o)
  }

  lemma Judge(sum: bv64, stored: bv64, crc: seq<bv64>, offset: nat)
    requires Delivers(stored, crc, offset)
    ensures Verdict(sum == stored, sum, crc, offset)
  {
    assert ReadsAs(stored, crc, offset);
  }

  /** At the start of a block the comparison is with the checksum of the page that was summed there. */
  lemma SummedVerdict(equal: bool, sum: bv64, crc: seq<bv64>, i: nat, offset: nat, page: seq<uint8>, addr: nat)
    requires Verdict(equal, sum, crc, offset)
    requires i < |crc| && offset == CRC_BLOCK_SIZE * i && Matches(crc[i], page, addr)
    ensures |page| >= VMSA_SIZE && (equal <==> sum == Checksum(page))
  {
    AlignedVerdict(equal, sum, crc, i, offset);
  }

  lemma AlignedVerdict(equal: bool, sum: bv64, crc: seq<bv64>, i: nat, offset: nat)
    requires Verdict(equal, sum, crc, offset) && i < |crc| && offset == CRC_BLOCK_SIZE * i
    ensures equal <==> sum == crc[i]
  {
    assert DecidedBy(equal, sum, crc, offset);
    ReadBlock(crc, i);
  }

  lemma SummedReleased(crc: seq<bv64>, owner: seq<Owner>, summed: seq<seq<uint8>>, startCrc: nat, list: seq<nat>)
    requires Summed(crc, owner, summed, startCrc)
    ensures Summed(crc, Released(owner, list), summed, startCrc)
  {
  }

  lemma NamedIsSummed(crc: seq<bv64>, owner: seq<Owner>, summed: seq<seq<uint8>>, startCrc: nat, i: nat, g: nat)
    requires Summed(crc, owner, summed, startCrc) && i < |owner| && owner[i] == Guest(g)
    ensures Matches(crc[i], summed[i], startCrc + CRC_BLOCK_SIZE * i)
  {
    PeekInside(crc[i], summed[i], startCrc + CRC_BLOCK_SIZE * i);
  }

  /** A page has changed below its last 64 octets, within four octets of one aligned 8-octet word. What happens to the
      last 64 octets does not matter. */
  ghost predicate Tampered(a: seq<uint8>, b: seq<uint8>, at: nat) {
    && |a| == |b| >= 4096 && at % 8 <= 4
    && a[..4096 - 64] != b[..4096 - 64]
    && forall k :: 0 <= k < 4096 - 64 && a[k] != b[k] ==> at <= k < at + 4
  }

  /** Such a change is always found out. */
  lemma TamperingDetected(a: seq<uint8>, b: seq<uint8>, at: nat)
    requires Tampered(a, b, at)
    ensures Checksum(a) != Checksum(b)
  {
    var s, t := a[..VMSA_CRC_SIZE], b[..VMSA_CRC_SIZE];
    NarrowedDiffer(s, t, at);
    CrcLanes.WordChangeDetected(Narrow(s), Narrow(t), at);
  }

  lemma NarrowedDiffer(s: seq<uint8>, t: seq<uint8>, at: nat)
    requires |s| == |t| && s != t && at % 8 <= 4
    requires forall k :: 0 <= k < |s| && s[k] != t[k] ==> at <= k < at + 4
    ensures CrcLanes.WordChange(Narrow(s), Narrow(t), at)
  {
    var k :| 0 <= k < |s| && s[k] != t[k];
    if ToBits(s[k]) == ToBits(t[k]) {
      ToBitsInjective(s[k], t[k]);
    }
    assert Narrow(s)[k] != Narrow(t)[k];
  }

  lemma SumsKept(p: PoolState, before: seq<seq<uint8>>, after: seq<seq<uint8>>, i: nat, vmsa: seq<uint8>)
    requires i < |p.owner| && !p.owner[i].Guest? && i < |before|
    requires after == before || after == before[i := vmsa]
    ensures SameForGuests(p, before, after)
  {
  }

  lemma GoneIsNobody(before: PoolState, after: PoolState)
    requires Consistent(before) && BlockGone(before, after)
    ensures NobodyGained(before, after)
  {
    LookInside(before);
  }

  lemma BackIsNobody(before: PoolState, after: PoolState, i: uint32)
    requires Consistent(before) && CanTake(before) && i == before.free[0]
    requires IsHeld(Taken(before, before.next[i := INVALID_BLOCK], Held), i)
    requires BlockBack(Taken(before, before.next[i := INVALID_BLOCK], Held), after, i)
    ensures NobodyGained(before, after) && after.owner[i] != Held && !after.owner[i].Guest?
  {
    LookInside(before);
  }

  /** The head of the free list has become the last block of the guest, with the checksum of the VMSA that names it. */
  ghost predicate SetupDone(before: PoolState, after: PoolState, g: nat, summed: seq<seq<uint8>>,
                            now: seq<seq<uint8>>, vmsa: seq<uint8>, filled: seq<uint8>, startCrc: nat) {
    && CanTake(before) && before.free[0] < INVALID_BLOCK && before.free[0] < |summed|
    && var i: uint32 := before.free[0];
       var p := Taken(before, before.next[i := INVALID_BLOCK], Held);
       && CanAppend(p, g, i) && after == Appended(p, g, i)
       && now == summed[i := filled] && FieldsSet(vmsa, filled, startCrc + CRC_BLOCK_SIZE * i)
  }

  /** A block on the list of the guest has the checksum of this VMSA. */
  ghost predicate OnList(lists: seq<seq<nat>>, summed: seq<seq<uint8>>, g: nat, vmsa: seq<uint8>) {
    g < |lists| && exists k :: k in lists[g] && k < |summed| && summed[k] == vmsa
  }

  /** Every VMSA that was on a list still is, except for those of guest `but`. */
  ghost predicate ListsKept(before: PoolState, summed: seq<seq<uint8>>, after: PoolState, now: seq<seq<uint8>>, but: int) {
    forall h: nat, vmsa :: h != but && OnList(before.lists, summed, h, vmsa) ==> OnList(after.lists, now, h, vmsa)
  }

  /** Setting up one VMSA keeps the others on their lists, and puts it on its own. */
  lemma SetupListed(before: PoolState, after: PoolState, g: nat, summed: seq<seq<uint8>>, now: seq<seq<uint8>>,
                    vmsa: seq<uint8>, filled: seq<uint8>, startCrc: nat)
    requires SetupDone(before, after, g, summed, now, vmsa, filled, startCrc) && Consistent(before)
    ensures OnList(after.lists, now, g, filled) && ListsKept(before, summed, after, now, -1)
  {
    LookInside(before);
    var i := before.free[0];
    assert after.lists[g][|before.lists[g]|] == i && now[i] == filled;
    forall h: nat, v | OnList(before.lists, summed, h, v)
      ensures OnList(after.lists, now, h, v)
    {
      var k :| k in before.lists[h] && k < |summed| && summed[k] == v;
      assert Owns(before.owner, Guest(h), before.lists[h]);
      assert before.owner[k] == Guest(h) && k in after.lists[h] && now[k] == v;
    }
  }

  /** A set-up that fails leaves all VMSAs on their lists. */
  lemma FailedSetupListed(before: PoolState, after: PoolState, summed: seq<seq<uint8>>, now: seq<seq<uint8>>)
    requires NobodyGained(before, after) && SameForGuests(after, summed, now) && Consistent(after)
    ensures ListsKept(before, summed, after, now, -1)
  {
    LookInside(after);
    forall h: nat, v | OnList(before.lists, summed, h, v)
      ensures OnList(after.lists, now, h, v)
    {
      var k :| k in before.lists[h] && k < |summed| && summed[k] == v;
      assert Owns(after.owner, Guest(h), after.lists[h]);
      assert after.owner[k] == Guest(h) && now[k] == v;
    }
  }

  /** Steps that do not touch the lists, or clear one of them. */
  lemma SameLists(before: PoolState, summed: seq<seq<uint8>>, after: PoolState, but: int)
    requires |after.lists| == |before.lists|
    requires forall h :: 0 <= h < |before.lists| && h != but ==> after.lists[h] == before.lists[h]
    ensures ListsKept(before, summed, after, summed, but)
  {
  }

  /** The guests and their lists are as before, and no block has found a new owner among them. */
  ghost predicate NobodyGained(before: PoolState, after: PoolState) {
    && after.guests == before.guests && after.lists == before.lists && |after.owner| == |before.owner|
    && forall i :: 0 <= i < |after.owner| ==>
         after.owner[i] == before.owner[i] || (before.owner[i] == Pooled && after.owner[i] == Lost)
  }

  ghost predicate SameForGuests(p: PoolState, before: seq<seq<uint8>>, after: seq<seq<uint8>>) {
    && |before| == |after|
    && forall i :: 0 <= i < |p.owner| && i < |after| && p.owner[i].Guest? ==> after[i] == before[i]
  }

  method SumOf(vmsa: array<uint8>) returns (sum: bv64)
    requires vmsa.Length >= VMSA_SIZE
    ensures sum == Checksum(vmsa[..])
  {
    var octets := Narrow(vmsa[..VMSA_CRC_SIZE]);
    var status;
    status, sum := Crc.ComputeCrc64(octets);
    assert vmsa[..][..VMSA_CRC_SIZE] == vmsa[..VMSA_CRC_SIZE];
  }

  lemma SumKeeps(crc: seq<bv64>, owner: seq<Owner>, summed: seq<seq<uint8>>, startCrc: nat, i: nat, sum: bv64,
                 vmsa: seq<uint8>)
    requires Summed(crc, owner, summed, startCrc) && i < |owner| && owner[i] == Held
    ensures Summed(crc[i := sum], owner, summed[i := vmsa], startCrc)
  {
  }

  lemma SummedWithout(crc: seq<bv64>, owner: seq<Owner>, summed: seq<seq<uint8>>, startCrc: nat, i: nat, to: Owner)
    requires Summed(crc, owner, summed, startCrc) && i < |owner| && !to.Guest?
    ensures Summed(crc, owner[i := to], summed, startCrc)
  {
  }

  lemma SummedWith(crc: seq<bv64>, owner: seq<Owner>, summed: seq<seq<uint8>>, startCrc: nat, i: nat, g: nat)
    requires Summed(crc, owner, summed, startCrc) && i < |owner|
    requires SummedAt(crc[i], summed[i], startCrc + CRC_BLOCK_SIZE * i)
    ensures Summed(crc, owner[i := Guest(g)], summed, startCrc)
  {
  }

  /** The addresses and the size of the pool stay. */
  twostate predicate PoolFixed(pool: Pool)
    reads pool
  {
    && pool.nrBlocks == old(pool.nrBlocks)
    && pool.startPoolAddr == old(pool.startPoolAddr) && pool.endPoolAddr == old(pool.endPoolAddr)
    && pool.startCrcAddr == old(pool.startCrcAddr) && pool.endCrcAddr == old(pool.endCrcAddr)
  }

  /** Nobody has gained a block; at most the head of the free list is gone for good. */
  ghost predicate BlockGone(before: PoolState, after: PoolState) {
    after == before || (CanTake(before) &&
      (after == Taken(before, before.next, Lost) ||
       after == Taken(before, before.next[before.free[0] := INVALID_BLOCK], Lost)))
  }

  /** Frees a block of the pool that is on no list. */
  method FreeTaken(pool: Pool, addr: nat, ghost index: nat) returns (ghost writes: nat)
    requires pool.Valid() && index < pool.nrBlocks && Alone(pool.next[..], pool.free, index)
    requires addr == pool.IdxToAddr64(index)
    modifies pool`freeTailIdx, pool`free, pool.next
    ensures pool.Valid() && writes <= 2 && (pool.reliable ==> writes == 2)
    ensures pool.free == ListAfter(old(pool.free), index, writes)
    ensures pool.next[..] == AfterWrites(old(pool.next[..]), old(pool.freeTailIdx), index, writes)
  {
    writes := pool.Free(addr);
  }

  lemma ReadyToReturn(p: PoolState, i: uint32)
    requires Consistent(p) && IsHeld(p, i)
    ensures Linked(p.next, p.free) && Alone(p.next, p.free, i)
  {
    FreeList(p);
  }

  /** Giving a held block back, with so many writes. */
  lemma ReturnedBy(p: PoolState, i: uint32, writes: nat)
    requires Consistent(p) && IsHeld(p, i) && Linked(p.next, p.free) && Alone(p.next, p.free, i) && writes <= 2
    ensures var q := if writes > 0 then Returned(p, i) else Forgotten(p, i);
            && Consistent(q) && q.free == ListAfter(p.free, i, writes)
            && q.next == AfterWrites(p.next, p.free[|p.free| - 1], i, writes)
            && q.guests == p.guests && |q.owner| == |p.owner|
  {
    ReturnKeeps(p, i);
    ForgetKeeps(p, i);
    OneWriteIsEnough(p.next, p.free, i);
  }

  ghost predicate BlockBack(before: PoolState, after: PoolState, i: uint32)
    requires IsHeld(before, i)
  {
    after == Forgotten(before, i) ||
    (|before.free| > 0 && before.free[|before.free| - 1] < |before.next| && after == Returned(before, i))
  }

  /** What may happen to a platform: a VMSA is set up, a guest is decommissioned, a block is taken, or the block
      taken last is given back. */
  datatype Step =
    | Setup(g: nat, page: nat)
    | Clear(g: nat)
    | Take
    | Give(k: nat)
    | Write(page: nat, at: nat, value: uint8)

  datatype Block = Block(addr: nat, index: uint32)

  /** Blocks that were taken and not given back stay held, whatever happens to the guests. */
  ghost predicate AllHeld(p: PoolState, start: nat, blocks: seq<Block>) {
    && (forall k :: 0 <= k < |blocks| ==>
          IsHeld(p, blocks[k].index) && blocks[k].addr == start + blocks[k].index * INDEX_BLOCK_SIZE)
    && forall j, k :: 0 <= j < k < |blocks| ==> blocks[j].index != blocks[k].index
  }

  ghost predicate HeldStay(before: PoolState, after: PoolState) {
    |after.owner| == |before.owner| &&
    forall i :: 0 <= i < |before.owner| && before.owner[i] == Held ==> after.owner[i] == Held
  }

  lemma StillHeld(before: PoolState, after: PoolState, start: nat, blocks: seq<Block>)
    requires Consistent(after) && AllHeld(before, start, blocks) && HeldStay(before, after)
    ensures AllHeld(after, start, blocks)
  {
    LookInside(after);
  }

  /** The VMSA in a page, set up for a guest. */
  datatype Entry = Entry(g: nat, page: nat)

  /** Which guests are of the kind without a pool. */
  function Kinds(guests: seq<EsGuest>): seq<bool> {
    seq(|guests|, i requires 0 <= i < |guests| => guests[i].snp)
  }

  /** The set-up has gone far enough to write to the VMSA. */
  predicate WritesPage(status: EsStatus) {
    status != Unsupported && status != InvalidLength && status != ResourceLimit
  }

  /**
   Which VMSAs of guests with a pool should validate after a step, given those before it: a set-up that writes to a page
   ends all that the page stood for, and begins a new one if it succeeds; any other write to the page ends it too;
   clearing a guest ends all of its own.
  */
  ghost function LiveAfter(live: set<Entry>, step: Step, status: EsStatus, snp: seq<bool>, pages: seq<array<uint8>>):
    set<Entry>
  {
    match step
    case Setup(g, page) =>
      if g < |snp| && page < |pages| && WritesPage(status) then
        ElsewhereThan(live, page, pages)
        + if status == Success && !snp[g] then {Entry(g, page)} else {}
      else live
    case Clear(g) => if g < |snp| && status == Success then set e | e in live && e.g != g else live
    case Take => live
    case Give(k) => live
    case Write(page, at, value) =>
      if page < |pages| && at < pages[page].Length then ElsewhereThan(live, page, pages) else live
  }

  /** The VMSAs that are not in this page. */
  ghost function ElsewhereThan(live: set<Entry>, page: nat, pages: seq<array<uint8>>): set<Entry>
    requires page < |pages|
  {
    set e | e in live && e.page < |pages| && pages[e.page] != pages[page]
  }

  /** Which VMSAs should validate after the first `n` steps of a run. */
  ghost function Live(steps: seq<Step>, statuses: seq<EsStatus>, snp: seq<bool>, pages: seq<array<uint8>>, n: nat):
    set<Entry>
    requires n <= |steps| && n <= |statuses|
  {
    if n == 0 then {}
    else LiveAfter(Live(steps, statuses, snp, pages, n - 1), steps[n - 1], statuses[n - 1], snp, pages)
  }

  lemma {:induction false} LiveCong(steps: seq<Step>, s: seq<EsStatus>, t: seq<EsStatus>, snp: seq<bool>,
                                    pages: seq<array<uint8>>, n: nat)
    requires n <= |steps| && n <= |s| && n <= |t| && forall i :: 0 <= i < n ==> s[i] == t[i]
    ensures Live(steps, s, snp, pages, n) == Live(steps, t, snp, pages, n)
  {
    if n > 0 {
      LiveCong(steps, s, t, snp, pages, n - 1);
    }
  }

  /** These VMSAs are as they were set up, and their blocks hold their checksums. */
  ghost predicate AllLive(platform: EsPlatform, pages: seq<array<uint8>>, live: set<Entry>)
    reads platform, set page | page in pages
  {
    AllListed(platform.st.lists, platform.summed, Contents(pages), live)
  }

  ghost function Contents(pages: seq<array<uint8>>): (c: seq<seq<uint8>>)
    reads set page | page in pages
    ensures |c| == |pages| && forall i :: 0 <= i < |c| ==> c[i] == pages[i][..]
  {
    seq(|pages|, i requires 0 <= i < |pages| reads set page | page in pages => pages[i][..])
  }

  ghost predicate AllListed(lists: seq<seq<nat>>, summed: seq<seq<uint8>>, contents: seq<seq<uint8>>, live: set<Entry>) {
    forall e :: e in live ==> e.page < |contents| && OnList(lists, summed, e.g, contents[e.page])
  }

  /** What a set-up does to the VMSAs that should validate. */
  lemma SetupLive(before: PoolState, summed: seq<seq<uint8>>, after: PoolState, now: seq<seq<uint8>>,
                  live: set<Entry>, pages: seq<array<uint8>>, was: seq<seq<uint8>>, contents: seq<seq<uint8>>,
                  g: nat, page: nat, status: EsStatus, snp: seq<bool>)
    requires AllListed(before.lists, summed, was, live) && ListsKept(before, summed, after, now, -1)
    requires |was| == |contents| == |pages| && page < |pages| && g < |snp|
    requires forall q :: 0 <= q < |pages| && (pages[q] != pages[page] || !WritesPage(status)) ==> contents[q] == was[q]
    requires status == Success && !snp[g] ==> OnList(after.lists, now, g, contents[page])
    ensures AllListed(after.lists, now, contents, LiveAfter(live, Setup(g, page), status, snp, pages))
  {
  }

  /** The pages are neither the checksum blocks nor the index blocks. */
  ghost predicate PagesApart(platform: EsPlatform, pages: seq<array<uint8>>) {
    forall page :: page in pages ==> (page as object) != platform.crc && (page as object) != platform.pool.next
  }

  /**
   Over any run of steps, every block keeps exactly one owner and none appears or disappears; and every VMSA that was
   set up, has not been written since and whose guest was not cleared still has its checksum in a block of the guest.
  */
  method Run(platform: EsPlatform, steps: seq<Step>, pages: seq<array<uint8>>)
    returns (held: seq<Block>, statuses: seq<EsStatus>)
    requires platform.Valid() && PagesApart(platform, pages)
    modifies platform, platform.pool, platform.pool.next, platform.crc, set page | page in pages
    ensures platform.Valid() && PoolFixed(platform.pool)
    ensures AllHeld(platform.st, platform.pool.startPoolAddr, held)
    ensures Conserved(platform.st, platform.pool.nrBlocks)
    ensures |statuses| == |steps| && Kinds(platform.guests) == old(Kinds(platform.guests))
    ensures AllLive(platform, pages, Live(steps, statuses, Kinds(platform.guests), pages, |steps|))
  {
    held, statuses := RunSteps(platform, steps, pages);
    BlocksConserved(platform.st);
  }

  /** The steps of a run, one after the other. */
  method RunSteps(platform: EsPlatform, steps: seq<Step>, pages: seq<array<uint8>>)
    returns (held: seq<Block>, statuses: seq<EsStatus>)
    requires platform.Valid() && PagesApart(platform, pages)
    modifies platform, platform.pool, platform.pool.next, platform.crc, set page | page in pages
    ensures platform.Valid() && PoolFixed(platform.pool)
    ensures AllHeld(platform.st, platform.pool.startPoolAddr, held)
    ensures |statuses| == |steps| && Kinds(platform.guests) == old(Kinds(platform.guests))
    ensures AllLive(platform, pages, Live(steps, statuses, Kinds(platform.guests), pages, |steps|))
  {
    held, statuses := [], [];
    ghost var snp := Kinds(platform.guests);
    var n := 0;
    while n < |steps|
      invariant n <= |steps| && platform.Valid() && PoolFixed(platform.pool)
      invariant AllHeld(platform.st, platform.pool.startPoolAddr, held)
      invariant |statuses| == n && Kinds(platform.guests) == snp
      invariant AllLive(platform, pages, Live(steps, statuses, snp, pages, n))
    {
      ghost var before, live := statuses, Live(steps, statuses, snp, pages, n);
      var status;
      held, status := Perform(platform, steps[n], pages, held, live, snp);
      statuses := statuses + [status];
      LiveCong(steps, before, statuses, snp, pages, n);
      n := n + 1;
    }
  }

  /** A run, and then the validation of one of those VMSAs: it succeeds, unless memory cannot be mapped. */
  method RunAndValidate(platform: EsPlatform, steps: seq<Step>, pages: seq<array<uint8>>, g: nat, page: nat)
    returns (statuses: seq<EsStatus>, status: EsStatus)
    requires platform.Valid() && PagesApart(platform, pages)
    requires g < |platform.guests| && page < |pages|
    modifies platform, platform.pool, platform.pool.next, platform.crc, set page | page in pages
    ensures |statuses| == |steps|
    ensures Entry(g, page) in Live(steps, statuses, old(Kinds(platform.guests)), pages, |steps|) ==>
              status == Success || (status == MapFailed && !platform.pool.reliable)
  {
    var held;
    held, statuses := Run(platform, steps, pages);
    assert |Kinds(platform.guests)| == |platform.guests|;
    ghost var i;
    status, i := platform.ValidateVmsa(g, pages[page]);
  }

  method Perform(platform: EsPlatform, step: Step, pages: seq<array<uint8>>, held: seq<Block>, ghost live: set<Entry>,
                 ghost snp: seq<bool>) returns (now: seq<Block>, status: EsStatus)
    requires platform.Valid() && AllHeld(platform.st, platform.pool.startPoolAddr, held)
    requires PagesApart(platform, pages) && AllLive(platform, pages, live) && snp == Kinds(platform.guests)
    modifies platform, platform.pool, platform.pool.next, platform.crc, set page | page in pages
    ensures platform.Valid() && PoolFixed(platform.pool) && Kinds(platform.guests) == snp
    ensures AllHeld(platform.st, platform.pool.startPoolAddr, now)
    ensures AllLive(platform, pages, LiveAfter(live, step, status, snp, pages))
  {
    now, status := held, Success;
    match step {
      case Setup(g, page) =>
        if g < |platform.guests| && page < |pages| {
          status := PerformSetup(platform, g, page, pages, held, live, snp);
        }
      case Clear(g) =>
        if g < |platform.guests| {
          status := PerformClear(platform, g, pages, held, live, snp);
        }
      case Take =>
        now := TakeBlock(platform, held);
        assert AllLive(platform, pages, live);
      case Give(k) =>
        if k < |held| {
          now := GiveBlock(platform, held, k);
          assert AllLive(platform, pages, live);
        }
      case Write(page, at, value) =>
        if page < |pages| && at < pages[page].Length {
          WriteOctet(platform, page, at, value, pages, held, live);
        }
    }
  }

  /** A write to a page from outside. */
  method WriteOctet(platform: EsPlatform, page: nat, at: nat, value: uint8, pages: seq<array<uint8>>,
                    ghost held: seq<Block>, ghost live: set<Entry>)
    requires platform.Valid() && AllHeld(platform.st, platform.pool.startPoolAddr, held)
    requires PagesApart(platform, pages) && AllLive(platform, pages, live)
    requires page < |pages| && at < pages[page].Length
    modifies pages[page]
    ensures platform.Valid() && AllHeld(platform.st, platform.pool.startPoolAddr, held)
    ensures AllLive(platform, pages, ElsewhereThan(live, page, pages))
  {
    assert pages[page] in pages;
    pages[page][at] := value;
  }

  method PerformSetup(platform: EsPlatform, g: nat, page: nat, pages: seq<array<uint8>>, held: seq<Block>,
                      ghost live: set<Entry>, ghost snp: seq<bool>) returns (status: EsStatus)
    requires platform.Valid() && AllHeld(platform.st, platform.pool.startPoolAddr, held)
    requires PagesApart(platform, pages) && AllLive(platform, pages, live) && snp == Kinds(platform.guests)
    requires g < |platform.guests| && page < |pages|
    modifies platform, platform.pool, platform.pool.next, platform.crc, pages[page]
    ensures platform.Valid() && PoolFixed(platform.pool) && Kinds(platform.guests) == snp
    ensures AllHeld(platform.st, platform.pool.startPoolAddr, held)
    ensures AllLive(platform, pages, LiveAfter(live, Setup(g, page), status, snp, pages))
  {
    ghost var p, sums, was, start := platform.st, platform.summed, Contents(pages), platform.pool.startCrcAddr;
    assert pages[page] in pages;
    status := platform.SetupVmsa(g, pages[page]);
    StillHeld(p, platform.st, platform.pool.startPoolAddr, held);
    if status == Success && !snp[g] {
      SetupListed(p, platform.st, g, sums, platform.summed, was[page], pages[page][..], start);
    } else if status != Success {
      FailedSetupListed(p, platform.st, sums, platform.summed);
    } else {
      SameLists(p, sums, platform.st, -1);
    }
    forall q | 0 <= q < |pages| && (pages[q] != pages[page] || !WritesPage(status))
      ensures Contents(pages)[q] == was[q]
    {
      assert pages[q] in pages;
    }
    SetupLive(p, sums, platform.st, platform.summed, live, pages, was, Contents(pages), g, page, status, snp);
  }

  method PerformClear(platform: EsPlatform, g: nat, pages: seq<array<uint8>>, held: seq<Block>,
                      ghost live: set<Entry>, ghost snp: seq<bool>) returns (status: EsStatus)
    requires platform.Valid() && AllHeld(platform.st, platform.pool.startPoolAddr, held)
    requires PagesApart(platform, pages) && AllLive(platform, pages, live) && snp == Kinds(platform.guests)
    requires g < |platform.guests|
    modifies platform`guests, platform`st, platform.pool, platform.pool.next
    ensures platform.Valid() && PoolFixed(platform.pool) && Kinds(platform.guests) == snp
    ensures AllHeld(platform.st, platform.pool.startPoolAddr, held)
    ensures AllLive(platform, pages, LiveAfter(live, Clear(g), status, snp, pages))
  {
    ghost var p := platform.st;
    status := platform.Decommission(g);
    GuestList(p, g);
    StillHeld(p, platform.st, platform.pool.startPoolAddr, held);
    SameLists(p, platform.summed, platform.st, g);
  }

  method TakeBlock(platform: EsPlatform, held: seq<Block>) returns (now: seq<Block>)
    requires platform.Valid() && AllHeld(platform.st, platform.pool.startPoolAddr, held)
    modifies platform`st, platform.pool, platform.pool.next
    ensures platform.Valid() && PoolFixed(platform.pool)
    ensures AllHeld(platform.st, platform.pool.startPoolAddr, now)
    ensures |now| <= |held| + 1
    ensures platform.st.lists == old(platform.st.lists) && platform.guests == old(platform.guests)
  {
    ghost var p := platform.st;
    var addr, index, crcAddr := platform.AllocBlock();
    StillHeld(p, platform.st, platform.pool.startPoolAddr, held);
    now := if addr == 0 then held else held + [Block(addr, index)];
    if addr != 0 {
      OneMoreHeld(p, platform.st, platform.pool.startPoolAddr, held, Block(addr, index));
    }
  }

  lemma OneMoreHeld(before: PoolState, after: PoolState, start: nat, held: seq<Block>, b: Block)
    requires AllHeld(before, start, held) && AllHeld(after, start, held)
    requires IsHeld(after, b.index) && !IsHeld(before, b.index) && b.addr == start + b.index * INDEX_BLOCK_SIZE
    ensures AllHeld(after, start, held + [b])
  {
  }

  /** The blocks that were taken and not this one. */
  lemma OthersHeld(before: PoolState, after: PoolState, start: nat, held: seq<Block>, k: nat)
    requires AllHeld(before, start, held) && k < |held| && BlockBack(before, after, held[k].index)
    requires Consistent(after)
    ensures AllHeld(after, start, held[..k] + held[k + 1..])
  {
    LookInside(after);
  }

  /** Gives back any of the blocks that were taken. */
  method GiveBlock(platform: EsPlatform, held: seq<Block>, k: nat) returns (now: seq<Block>)
    requires platform.Valid() && AllHeld(platform.st, platform.pool.startPoolAddr, held) && k < |held|
    modifies platform`st, platform.pool, platform.pool.next
    ensures platform.Valid() && PoolFixed(platform.pool)
    ensures AllHeld(platform.st, platform.pool.startPoolAddr, now)
    ensures now == held[..k] + held[k + 1..]
    ensures platform.st.lists == old(platform.st.lists) && platform.guests == old(platform.guests)
  {
    ghost var p := platform.st;
    var given := held[k];
    now := held[..k] + held[k + 1..];
    platform.FreeBlock(given.addr, given.index);
    OthersHeld(p, platform.st, platform.pool.startPoolAddr, held, k);
  }

  ghost predicate Conserved(p: PoolState, blocks: nat) {
    && |p.free| + TotalVcpus(p.guests) + Count(p.owner, Held) + Count(p.owner, Lost) == blocks
    && |p.free| >= 1
  }
}
