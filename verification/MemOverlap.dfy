/** What the test for overlapping ranges means, told by addresses. */
module MemOverlap {
  import opened Word
  import opened Limbs
  import opened Bits
  import opened MemMap

  lemma TwoTo51()
    ensures Pow2(51) == CBIT
  {
    assert Pow2(10) == 1024 && Pow2(11) == 2048;
    Pow2Add(10, 10);
    Pow2Add(20, 20);
    Pow2Add(40, 11);
  }

  /** Only bit 51 is cleared. */
  lemma ClearedBits(a: uint64, k: nat)
    ensures Bit(ClearCBit(a), k) <==> k != 51 && Bit(a, k)
  {
    TwoTo51();
    BitByDivision(a, 51);
    if Bit(a, 51) {
      BitTaken(a, 51, k);
    }
  }

  /** An address that lies in both ranges, compared without bit 51. */
  ghost predicate Common(start1: uint64, end1: uint64, start2: uint64, end2: uint64, a: int) {
    Within(ClearCBit(start1), ClearCBit(end1), a) && Within(ClearCBit(start2), ClearCBit(end2), a)
  }

  /** Ranges that share an address overlap; and ranges that are not empty overlap only then. */
  lemma OverlapIsCommon(start1: uint64, end1: uint64, start2: uint64, end2: uint64)
    ensures (exists a :: Common(start1, end1, start2, end2, a)) ==> RangesOverlap(start1, end1, start2, end2)
    ensures ClearCBit(start1) <= ClearCBit(end1) && ClearCBit(start2) <= ClearCBit(end2) ==>
      (RangesOverlap(start1, end1, start2, end2) <==> exists a :: Common(start1, end1, start2, end2, a))
  {
    var a := if ClearCBit(start1) < ClearCBit(start2) then ClearCBit(start2) else ClearCBit(start1);
    if RangesOverlap(start1, end1, start2, end2) && ClearCBit(start1) <= ClearCBit(end1) &&
       ClearCBit(start2) <= ClearCBit(end2)
    {
      assert Common(start1, end1, start2, end2, a);
    }
  }

  /** No address of an MMIO range, compared without bit 51, is one of memory. */
  lemma AcceptedIsApart(s: seq<MemDesc>, n: nat, i: nat, j: nat, a: int)
    requires n <= |s| && NoMmioInMemory(s, n, n) && i < n && j < n && s[i].kind == Mmio && s[j].kind == Dram
    ensures !Common(s[i].base, s[i].limit, s[j].base, s[j].limit, a)
  {
    OverlapIsCommon(s[i].base, s[i].limit, s[j].base, s[j].limit);
  }
}
