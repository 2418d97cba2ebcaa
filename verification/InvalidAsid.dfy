/** The INVALID_ASID registers: one bit per address space identifier in every hardware thread. */
module InvalidAsid {
  import opened Word
  import opened Limbs
  import opened Bits
  import A = ApicId

  const MAX_CCDS: nat := 16
  const CORES_PER_CCX: nat := 8
  const CCX_PER_SOCKET: nat := 16
  const BITS_PER_REG: nat := 32
  const REG_SIZE: nat := 4
  const THREAD_OFFSET: nat := 4096
  const ASID0_OFFSET: nat := 0x40

  /** The register that holds the bit of an ASID. */
  function RegOf(asid: uint32): nat {
    Wrap32(asid - 1) / BITS_PER_REG
  }

  /** The position of the bit of an ASID in its register. */
  function BitOf(asid: uint32): nat {
    Wrap32(asid - 1) - RegOf(asid) * BITS_PER_REG
  }

  /** ASIDs from 1 on and pairs of a register and a bit correspond one to one. */
  lemma AsidBijection(asid: uint32, other: uint32)
    ensures BitOf(asid) < 32
    ensures asid >= 1 ==> asid == 32 * RegOf(asid) + BitOf(asid) + 1
    ensures RegOf(asid) == RegOf(other) && BitOf(asid) == BitOf(other) <==> asid == other
  {
  }

  lemma EveryBitIsAnAsid(reg: nat, bit: nat)
    requires bit < BITS_PER_REG && BITS_PER_REG * reg + bit + 1 < TWO_32
    ensures RegOf(BITS_PER_REG * reg + bit + 1) == reg && BitOf(BITS_PER_REG * reg + bit + 1) == bit
  {
  }

  function Address(base: uint64, apicId: uint32, asid: uint32): uint64 {
    (base + Wrap32(apicId * THREAD_OFFSET) + ASID0_OFFSET + Wrap32(RegOf(asid) * REG_SIZE)) % TWO_64
  }

  /** The registers of all threads lie below 2^64, and those for `asid` inside the page of their thread. */
  predicate Fits(base: uint64, asid: uint32) {
    base + TWO_32 <= TWO_64 && 1 <= asid && ASID0_OFFSET + REG_SIZE * (RegOf(asid) + 1) <= THREAD_OFFSET
  }

  lemma AddressesDiffer(base: uint64, x: uint32, y: uint32, asid: uint32, other: uint32)
    requires Fits(base, asid) && Fits(base, other) && x < 0x10_0000 && y < 0x10_0000
    ensures Address(base, x, asid) == Address(base, y, other) <==> x == y && RegOf(asid) == RegOf(other)
  {
    AddressIsSum(base, x, asid, RegOf(asid));
    AddressIsSum(base, y, other, RegOf(other));
    PagesApart(x, RegOf(asid), y, RegOf(other));
  }

  lemma AddressIsSum(base: uint64, x: uint32, asid: uint32, reg: nat)
    requires Fits(base, asid) && x < 0x10_0000 && reg == RegOf(asid)
    ensures Address(base, x, asid) == base + 4096 * x + 0x40 + 4 * reg
  {
    NoWrap(THREAD_OFFSET * x, TWO_32);
    NoWrap(REG_SIZE * reg, TWO_32);
    NoWrap(base + THREAD_OFFSET * x + ASID0_OFFSET + REG_SIZE * reg, TWO_64);
  }

  lemma NoWrap(a: nat, m: nat)
    requires a < m
    ensures a % m == a
  {
  }

  lemma PagesApart(x: nat, i: nat, y: nat, j: nat)
    requires ASID0_OFFSET + REG_SIZE * (i + 1) <= THREAD_OFFSET && ASID0_OFFSET + REG_SIZE * (j + 1) <= THREAD_OFFSET
    ensures THREAD_OFFSET * x + REG_SIZE * i == THREAD_OFFSET * y + REG_SIZE * j <==> x == y && i == j
  {
  }

  datatype Slot = Slot(die: nat, ccd: nat, complex: nat, core: nat, thread: nat)

  datatype Lookup = Found(id: uint32) | NoApicId

  predicate SameId(x: Lookup, y: Lookup) {
    x.Found? && y.Found? && x.id == y.id
  }

  /** What the firmware knows of the processor: which parts are present, and the APIC IDs of the threads. Mapping
      memory may fail at any time, unless it is reliable. */
  datatype Topology = Topology(dies: nat, complexes: nat, smt: bool, ccdPresent: nat -> uint32,
                               corePresent: (nat, nat) -> uint32, ccxPresent: uint32, apicId: Slot -> Lookup,
                               tmrBase: uint64, reliable: bool) {
    /** At most 32 complexes: sixteen on each of two sockets. */
    ghost predicate Valid() {
      && dies <= 2 && (complexes == 1 || complexes == 2)
      && (complexes == 2 ==> forall die, ccd :: 8 <= ccd < MAX_CCDS ==> !Bit(ccdPresent(die), ccd))
    }

    predicate CoreEnabled(die: nat, ccd: nat, complex: nat, core: nat) {
      die < dies && ccd < MAX_CCDS && core < 2 * CORES_PER_CCX
      && Bit(corePresent(die, ccd), if complex == 1 && core < CORES_PER_CCX then core + CORES_PER_CCX else core)
    }

    function Threads(): nat {
      if smt then 2 else 1
    }

    function Position(die: nat, ccd: nat, complex: nat): nat {
      die * CCX_PER_SOCKET + ccd * complexes + complex
    }

    /** The thread exists, and its core and die are enabled. */
    ghost predicate Active(s: Slot) {
      && s.die < dies && s.ccd < MAX_CCDS && s.complex < complexes && s.core < CORES_PER_CCX && s.thread < Threads()
      && Bit(ccdPresent(s.die), s.ccd) && CoreEnabled(s.die, s.ccd, s.complex, s.core)
    }

    ghost function Ccx(s: Slot): nat {
      Position(s.die, s.ccd, s.complex)
    }

    /** The mask names the complex of the thread, and the complex is present. */
    ghost predicate Requested(mask: uint32, s: Slot) {
      Active(s) && Bit(mask, Ccx(s)) && Bit(ccxPresent, Ccx(s))
    }

    ghost predicate At(asid: uint32, s: Slot, a: uint64) {
      apicId(s).Found? && a == Address(tmrBase, apicId(s).id, asid)
    }

    /** There is a reason why the registers of the threads that the mask names cannot all be accessed. */
    ghost predicate Excuse(mask: uint32) {
      !reliable || exists s :: Requested(mask, s) && apicId(s).NoApicId?
    }

    /** `a` is the register for `asid` of a thread that the mask names. */
    ghost predicate Target(asid: uint32, mask: uint32, a: uint64) {
      exists s :: Requested(mask, s) && At(asid, s, a)
    }

    /** Different threads have different APIC IDs. */
    ghost predicate Distinct() {
      && (forall s :: Active(s) && apicId(s).Found? ==> apicId(s).id < 0x10_0000)
      && (forall s, r :: Active(s) && Active(r) && SameId(apicId(s), apicId(r)) ==> s == r)
    }

    lemma PositionBound(die: nat, ccd: nat, complex: nat)
      requires Valid() && die < dies && ccd < MAX_CCDS && complex < complexes && Bit(ccdPresent(die), ccd)
      ensures Position(die, ccd, complex) < 32
    {
    }
  }

  class Registers {
    var regs: uint64 -> uint32

    /** Read or write the register of one thread. */
    method AccessThread(t: Topology, asid: uint32, s: Slot, value: uint32, read: bool)
      returns (ok: bool, out: uint32, ghost hit: set<uint64>)
      modifies this
      ensures forall a :: regs(a) == if a in hit then value else old(regs)(a)
      ensures forall a :: a in hit ==> !read && t.At(asid, s, a)
      ensures ok ==> t.apicId(s).Found?
      ensures !ok ==> !t.reliable || t.apicId(s).NoApicId?
      ensures !read ==> out == value
      ensures ok && !read ==> Address(t.tmrBase, t.apicId(s).id, asid) in hit
      ensures ok && read ==> out == regs(Address(t.tmrBase, t.apicId(s).id, asid))
    {
      hit, out := {}, value;
      var lookup := t.apicId(s);
      if lookup.NoApicId? {
        return false, value, hit;
      }
      var a := Address(t.tmrBase, lookup.id, asid);
      var mapped := MapMemory(t.reliable);
      if !mapped {
        return false, value, hit;
      }
      if read {
        out := regs(a);
      } else {
        var was := regs;
        regs := x => if x == a then value else was(x);
        hit := {a};
      }
      ok := MapMemory(t.reliable);
    }

    /** Mapping memory, or giving up a mapping. */
    method MapMemory(reliable: bool) returns (ok: bool)
      ensures reliable ==> ok
    {
      ok := *;
      ok := ok || reliable;
    }

    /** Access the registers of the threads of one core. A read ends with the first one. */
    method AccessCore(t: Topology, asid: uint32, mask: uint32, c: Slot, value: uint32, read: bool)
      returns (ok: bool, done: bool, out: uint32, ghost hit: set<uint64>)
      requires forall thread :: 0 <= thread < t.Threads() ==> t.Requested(mask, c.(thread := thread))
      modifies this
      ensures Outcome(t, asid, mask, value, read, old(regs), regs, ok, done, out, hit)
      ensures !done ==> forall thread :: 0 <= thread < t.Threads() ==> Handled(t, asid, c.(thread := thread), read, hit)
    {
      hit, out := {}, value;
      for thread := 0 to t.Threads()
        invariant Outcome(t, asid, mask, value, read, old(regs), regs, true, false, out, hit)
        invariant forall k :: 0 <= k < thread ==> Handled(t, asid, c.(thread := k), read, hit)
      {
        var s := c.(thread := thread);
        assert t.Requested(mask, s);
        ghost var more;
        ok, out, more := AccessThread(t, asid, s, value, read);
        hit := hit + more;
        if !ok || read {
          return ok, true, out, hit;
        }
      }
      ok, done := true, false;
    }

    /** Access the registers of all threads of one complex. */
    method AccessCcx(t: Topology, asid: uint32, mask: uint32, x: Slot, value: uint32, read: bool)
      returns (ok: bool, done: bool, out: uint32, ghost hit: set<uint64>)
      requires t.Valid() && x.die < t.dies && x.ccd < MAX_CCDS && x.complex < t.complexes
      requires Bit(t.ccdPresent(x.die), x.ccd) && Bit(mask, t.Ccx(x)) && Bit(t.ccxPresent, t.Ccx(x))
      modifies this
      ensures Outcome(t, asid, mask, value, read, old(regs), regs, ok, done, out, hit)
      ensures !done ==> forall s :: SameCcx(s, x) && t.Requested(mask, s) ==> Handled(t, asid, s, read, hit)
    {
      hit, out := {}, value;
      for core := 0 to CORES_PER_CCX
        invariant Outcome(t, asid, mask, value, read, old(regs), regs, true, false, out, hit)
        invariant forall s :: SameCcx(s, x) && s.core < core && t.Requested(mask, s) ==> Handled(t, asid, s, read, hit)
      {
        var c := x.(core := core);
        if t.CoreEnabled(x.die, x.ccd, x.complex, core) {
          ghost var more;
          ok, done, out, more := AccessCore(t, asid, mask, c, value, read);
          hit := hit + more;
          if done {
            return;
          }
          assert forall s :: SameCcx(s, x) && s.core == core ==> s == c.(thread := s.thread);
        }
      }
      ok, done := true, false;
    }

    /** Access the registers of the named complexes of one compute die. */
    method AccessCcd(t: Topology, asid: uint32, mask: uint32, x: Slot, value: uint32, read: bool)
      returns (ok: bool, done: bool, out: uint32, ghost hit: set<uint64>)
      requires t.Valid() && x.die < t.dies && x.ccd < MAX_CCDS && Bit(t.ccdPresent(x.die), x.ccd)
      modifies this
      ensures Outcome(t, asid, mask, value, read, old(regs), regs, ok, done, out, hit)
      ensures !done ==> forall s: Slot :: s.die == x.die && s.ccd == x.ccd && t.Requested(mask, s) ==>
                          Handled(t, asid, s, read, hit)
    {
      hit, out := {}, value;
      for complex := 0 to t.complexes
        invariant Outcome(t, asid, mask, value, read, old(regs), regs, true, false, out, hit)
        invariant forall s: Slot :: s.die == x.die && s.ccd == x.ccd && s.complex < complex && t.Requested(mask, s) ==>
                    Handled(t, asid, s, read, hit)
      {
        var c := x.(complex := complex);
        t.PositionBound(x.die, x.ccd, complex);
        MaskNamesBit(mask, t.Position(x.die, x.ccd, complex), t.ccxPresent);
        if MaskNames(mask, t.Position(x.die, x.ccd, complex), t.ccxPresent) {
          ghost var more;
          ok, done, out, more := AccessCcx(t, asid, mask, c, value, read);
          hit := hit + more;
          if done {
            return;
          }
        }
      }
      ok, done := true, false;
    }

    /** Access the registers of the named complexes of one socket. */
    method AccessDie(t: Topology, asid: uint32, mask: uint32, die: nat, value: uint32, read: bool)
      returns (ok: bool, done: bool, out: uint32, ghost hit: set<uint64>)
      requires t.Valid() && die < t.dies
      modifies this
      ensures Outcome(t, asid, mask, value, read, old(regs), regs, ok, done, out, hit)
      ensures !done ==> forall s: Slot :: s.die == die && t.Requested(mask, s) ==> Handled(t, asid, s, read, hit)
    {
      hit, out := {}, value;
      for ccd := 0 to MAX_CCDS
        invariant Outcome(t, asid, mask, value, read, old(regs), regs, true, false, out, hit)
        invariant forall s: Slot :: s.die == die && s.ccd < ccd && t.Requested(mask, s) ==> Handled(t, asid, s, read, hit)
      {
        if Bit(t.ccdPresent(die), ccd) {
          ghost var more;
          ok, done, out, more := AccessCcd(t, asid, mask, Slot(die, ccd, 0, 0, 0), value, read);
          hit := hit + more;
          if done {
            return;
          }
        }
      }
      ok, done := true, false;
    }

    /** Read one, or write all, of the registers for `asid` of the complexes that the mask names. */
    method AccessInvalidAsidRegs(t: Topology, asid: uint32, mask: uint32, value: uint32, read: bool)
      returns (ok: bool, out: uint32, ghost done: bool, ghost hit: set<uint64>)
      requires t.Valid()
      modifies this
      ensures Outcome(t, asid, mask, value, read, old(regs), regs, ok, done, out, hit)
      ensures !done ==> forall s :: t.Requested(mask, s) ==> Handled(t, asid, s, read, hit)
    {
      hit, out := {}, value;
      for die := 0 to t.dies
        invariant Outcome(t, asid, mask, value, read, old(regs), regs, true, false, out, hit)
        invariant forall s: Slot :: s.die < die && t.Requested(mask, s) ==> Handled(t, asid, s, read, hit)
      {
        var end: bool;
        ghost var more;
        ok, end, out, more := AccessDie(t, asid, mask, die, value, read);
        hit := hit + more;
        if end {
          done := true;
          return;
        }
      }
      ok, done := true, false;
    }

    /** Set or clear the bit of `asid` on complex `i`. */
    method MarkCcx(t: Topology, asid: uint32, mask: uint32, i: nat, value: uint32, setValid: bool,
                   ghost was: uint64 -> uint32)
      returns (ok: bool, out: uint32)
      requires t.Valid() && t.Distinct() && Fits(t.tmrBase, asid) && Uniform(t, was, asid)
      requires i < 32 && Bit(mask, i) && Bit(t.ccxPresent, i)
      requires MarkedBelow(t, asid, mask, setValid, i, was, regs)
      modifies this
      ensures ok ==> MarkedBelow(t, asid, mask, setValid, i + 1, was, regs)
      ensures !ok ==> t.Excuse(mask)
      ensures forall a :: regs(a) == was(a) || (t.Target(asid, mask, a) && regs(a) == Marked(was(a), asid, setValid))
    {
      var one := SingleBit(i);
      ghost var found, done, none, hit;
      ok, out, found, none := AccessInvalidAsidRegs(t, asid, one, value, true);
      ghost var mid := regs;
      assert MarkedBelow(t, asid, mask, setValid, i, was, mid);
      BelowIsTarget(t, asid, mask, i);
      ExcuseOfOne(t, mask, i);
      if !ok {
        return;
      }
      out := Marked(out, asid, setValid);
      ghost var written := out;
      ok, out, done, hit := AccessInvalidAsidRegs(t, asid, one, out, false);
      forall a | a in hit
        ensures written == Marked(was(a), asid, setValid) && t.Target(asid, mask, a) && !TargetBelow(t, asid, mask, i, a)
        ensures TargetBelow(t, asid, mask, i + 1, a)
      {
        ghost var s :| t.Requested(one, s) && t.At(asid, s, a);
        assert found by {
          assert Handled(t, asid, s, true, none) == false;
        }
        ghost var s0 :| t.Requested(one, s0) && t.apicId(s0).Found?
                        && written == Marked(mid(Address(t.tmrBase, t.apicId(s0).id, asid)), asid, setValid);
        HitIsMarked(t, asid, mask, i, setValid, was, mid, s0, s, a);
      }
      if !done {
        forall a | TargetBelow(t, asid, mask, i + 1, a) && !TargetBelow(t, asid, mask, i, a)
          ensures a in hit
        {
          ghost var s :| t.Requested(mask, s) && t.Ccx(s) < i + 1 && t.At(asid, s, a);
          SingleMask(t, i, s);
          assert Handled(t, asid, s, false, hit);
        }
      }
    }

    /**
     * Set or clear the bit of `asid` on the complexes that the mask names. Whatever happens, only registers of those
     * threads change, and only in that bit; on success all of them are marked.
     */
    method MarkAsid(t: Topology, asid: uint32, mask: uint32, setValid: bool) returns (ok: bool)
      requires t.Valid() && t.Distinct() && Fits(t.tmrBase, asid) && Uniform(t, regs, asid)
      modifies this
      ensures forall a :: regs(a) == old(regs)(a)
                          || (t.Target(asid, mask, a) && regs(a) == Marked(old(regs)(a), asid, setValid))
      ensures ok ==> MarkedOn(t, asid, mask, setValid, old(regs), regs)
      ensures ok ==> MarkedByNumber(t, asid, mask, setValid, old(regs), regs)
      ensures !ok ==> t.Excuse(mask)
    {
      var value: uint32 := 0;
      if mask != 0 {
        var last := Width(mask) - 1;
        for i := 0 to last + 1
          invariant MarkedBelow(t, asid, mask, setValid, i, old(regs), regs)
        {
          MaskNamesBit(mask, i, t.ccxPresent);
          if MaskNames(mask, i, t.ccxPresent) {
            InWord(mask, i);
            ok, value := MarkCcx(t, asid, mask, i, value, setValid, old(regs));
            if !ok {
              return false;
            }
          } else {
            NextTarget(t, asid, mask, i);
          }
        }
      }
      AllTargets(t, asid, mask);
      OnIsByNumber(t, asid, mask, setValid, old(regs), regs);
      ok := true;
    }
  }

  function SingleBit(i: nat): (mask: uint32)
    requires i < 32
    ensures mask == Pow2(i)
  {
    Pow2Word();
    Pow2Mono(i + 1, 32);
    Pow2(i)
  }

  /** A mask of one bit names exactly the threads of one complex. */
  lemma SingleMask(t: Topology, i: nat, s: Slot)
    requires i < 32
    ensures t.Requested(SingleBit(i), s) <==> t.Active(s) && t.Ccx(s) == i && Bit(t.ccxPresent, i)
  {
    PowerBit(i, t.Ccx(s));
  }

  lemma ExcuseOfOne(t: Topology, mask: uint32, i: nat)
    requires i < 32 && Bit(mask, i)
    ensures t.Excuse(SingleBit(i)) ==> t.Excuse(mask)
  {
    if t.Excuse(SingleBit(i)) && t.reliable {
      var s :| t.Requested(SingleBit(i), s) && t.apicId(s).NoApicId?;
      SingleMask(t, i, s);
      assert t.Requested(mask, s);
    }
  }

  lemma OneOwner(t: Topology, asid: uint32, s: Slot, r: Slot, a: uint64)
    requires t.Distinct() && Fits(t.tmrBase, asid) && t.Active(s) && t.Active(r) && t.At(asid, s, a) && t.At(asid, r, a)
    ensures s == r
  {
    AddressesDiffer(t.tmrBase, t.apicId(s).id, t.apicId(r).id, asid, asid);
  }

  lemma SameComplex(t: Topology, s: Slot, r: Slot)
    requires t.Valid() && t.Active(s) && t.Active(r)
    ensures t.Ccx(s) == t.Ccx(r) <==> SameCcx(s, r)
  {
    if t.complexes == 2 {
      assert s.ccd < 8 && r.ccd < 8;
    }
    Spread(t.complexes, s.die, s.ccd, s.complex, r.die, r.ccd, r.complex);
  }

  lemma Spread(n: nat, d: nat, c: nat, x: nat, e: nat, b: nat, y: nat)
    requires (n == 1 && c < 16 && b < 16) || (n == 2 && c < 8 && b < 8)
    requires x < n && y < n
    ensures d * 16 + c * n + x == e * 16 + b * n + y <==> d == e && c == b && x == y
  {
    if n == 1 {
      assert c * n == c && b * n == b;
    } else {
      assert c * n == 2 * c && b * n == 2 * b;
    }
  }

  lemma InWord(mask: uint32, i: nat)
    requires i < Width(mask)
    ensures i < 32
  {
    Pow2Word();
    WidthBound(mask, 32);
  }

  /** The value read from one thread of complex `i` is the old value of every thread of it. */
  lemma HitIsMarked(t: Topology, asid: uint32, mask: uint32, i: nat, setValid: bool, was: uint64 -> uint32,
                    mid: uint64 -> uint32, s0: Slot, s: Slot, a: uint64)
    requires t.Valid() && t.Distinct() && Fits(t.tmrBase, asid) && Uniform(t, was, asid)
    requires i < 32 && Bit(mask, i) && MarkedBelow(t, asid, mask, setValid, i, was, mid)
    requires t.Requested(SingleBit(i), s0) && t.apicId(s0).Found? && t.Requested(SingleBit(i), s) && t.At(asid, s, a)
    ensures mid(Address(t.tmrBase, t.apicId(s0).id, asid)) == was(a)
    ensures t.Target(asid, mask, a) && !TargetBelow(t, asid, mask, i, a) && TargetBelow(t, asid, mask, i + 1, a)
  {
    var a0 := Address(t.tmrBase, t.apicId(s0).id, asid);
    SingleMask(t, i, s0);
    SingleMask(t, i, s);
    SameComplex(t, s0, s);
    NotBelow(t, asid, mask, i, s0, a0);
    NotBelow(t, asid, mask, i, s, a);
    assert t.Requested(mask, s);
  }

  lemma NotBelow(t: Topology, asid: uint32, mask: uint32, i: nat, s: Slot, a: uint64)
    requires t.Distinct() && Fits(t.tmrBase, asid) && t.Active(s) && t.Ccx(s) == i && t.At(asid, s, a)
    ensures !TargetBelow(t, asid, mask, i, a)
  {
    if TargetBelow(t, asid, mask, i, a) {
      var r :| t.Requested(mask, r) && t.Ccx(r) < i && t.At(asid, r, a);
      OneOwner(t, asid, s, r, a);
    }
  }

  lemma BelowIsTarget(t: Topology, asid: uint32, mask: uint32, n: nat)
    ensures forall a :: TargetBelow(t, asid, mask, n, a) ==> t.Target(asid, mask, a)
  {
  }

  lemma NextTarget(t: Topology, asid: uint32, mask: uint32, i: nat)
    requires !(Bit(mask, i) && Bit(t.ccxPresent, i))
    ensures forall a :: TargetBelow(t, asid, mask, i + 1, a) <==> TargetBelow(t, asid, mask, i, a)
  {
  }

  lemma AllTargets(t: Topology, asid: uint32, mask: uint32)
    ensures forall a :: t.Target(asid, mask, a) <==> TargetBelow(t, asid, mask, Width(mask), a)
  {
    forall s | t.Requested(mask, s)
      ensures t.Ccx(s) < Width(mask)
    {
      if t.Ccx(s) >= Width(mask) {
        HighBit(mask, Width(mask), t.Ccx(s));
      }
    }
  }

  /** The register value with the bit of `asid` cleared, if it becomes valid, or set. */
  function Marked(value: uint32, asid: uint32, setValid: bool): uint32 {
    AsidBijection(asid, asid);
    Pow2Word();
    Pow2Mono(BitOf(asid) + 1, 32);
    OrBound(value, Pow2(BitOf(asid)), 32);
    if setValid then BitAnd(value, Complement(Pow2(BitOf(asid)), 32)) else BitOr(value, Pow2(BitOf(asid)))
  }

  lemma MarkedBit(value: uint32, asid: uint32, setValid: bool, k: nat)
    requires k < BITS_PER_REG
    ensures Bit(Marked(value, asid, setValid), k) == if k == BitOf(asid) then !setValid else Bit(value, k)
  {
    var b := BitOf(asid);
    AsidBijection(asid, asid);
    Pow2Word();
    Pow2Mono(b + 1, 32);
    PowerBit(b, k);
    if setValid {
      AndBit(value, Complement(Pow2(b), 32), k);
      ComplementBit(Pow2(b), 32, k);
    } else {
      OrBit(value, Pow2(b), k);
    }
  }

  /** The threads of a complex all hold the same value in the register for `asid`. */
  ghost predicate Uniform(t: Topology, regs: uint64 -> uint32, asid: uint32) {
    forall s, r :: t.Active(s) && t.Active(r) && SameCcx(s, r) && t.apicId(s).Found? && t.apicId(r).Found? ==>
      regs(Address(t.tmrBase, t.apicId(s).id, asid)) == regs(Address(t.tmrBase, t.apicId(r).id, asid))
  }

  /** The register for `asid` of a thread that the mask names, in one of the first `n` complexes. */
  ghost predicate TargetBelow(t: Topology, asid: uint32, mask: uint32, n: nat, a: uint64) {
    exists s :: t.Requested(mask, s) && t.Ccx(s) < n && t.At(asid, s, a)
  }

  ghost predicate MarkedBelow(t: Topology, asid: uint32, mask: uint32, setValid: bool, n: nat, was: uint64 -> uint32,
                              now: uint64 -> uint32)
  {
    forall a :: now(a) == if TargetBelow(t, asid, mask, n, a) then Marked(was(a), asid, setValid) else was(a)
  }

  /** Exactly the registers that the mask names are marked. */
  ghost predicate MarkedOn(t: Topology, asid: uint32, mask: uint32, setValid: bool, was: uint64 -> uint32,
                           now: uint64 -> uint32)
  {
    forall a :: now(a) == if t.Target(asid, mask, a) then Marked(was(a), asid, setValid) else was(a)
  }

  /** The test that the firmware makes on the two masks. */
  predicate MaskNames(mask: uint32, k: nat, present: uint32) {
    BitAnd(BitAnd(mask, Pow2(k)), present) != 0
  }

  lemma MaskNamesBit(mask: uint32, k: nat, present: uint32)
    ensures MaskNames(mask, k, present) <==> Bit(mask, k) && Bit(present, k)
  {
    AndPower(mask, k);
    if Bit(mask, k) {
      AndCommutative(Pow2(k), present);
      AndPower(present, k);
    } else {
      assert BitAnd(0, present) == 0;
    }
  }

  ghost predicate SameCcx(s: Slot, x: Slot) {
    s.die == x.die && s.ccd == x.ccd && s.complex == x.complex
  }

  /** Nothing is left to do for a thread: its register was written, or a read found no such thread. */
  ghost predicate Handled(t: Topology, asid: uint32, s: Slot, read: bool, hit: set<uint64>) {
    !read && t.apicId(s).Found? && Address(t.tmrBase, t.apicId(s).id, asid) in hit
  }

  /** The effect of an access: `hit` holds the registers written; a read that is done has the value of one register. */
  ghost predicate Outcome(t: Topology, asid: uint32, mask: uint32, value: uint32, read: bool, was: uint64 -> uint32,
                          now: uint64 -> uint32, ok: bool, done: bool, out: uint32, hit: set<uint64>)
  {
    && (forall a :: now(a) == if a in hit then value else was(a))
    && (forall a :: a in hit ==> !read && t.Target(asid, mask, a))
    && (!done ==> ok && out == value)
    && (ok && !read ==> !done)
    && (!ok ==> t.Excuse(mask))
    && (ok && read && done ==> exists s :: t.Requested(mask, s) && t.apicId(s).Found?
                                           && out == was(Address(t.tmrBase, t.apicId(s).id, asid)))
  }

  /** As the hardware sees it: `asid` is marked invalid on a thread. */
  ghost predicate Invalid(t: Topology, regs: uint64 -> uint32, s: Slot, asid: uint32)
    requires t.apicId(s).Found?
  {
    Bit(regs(Address(t.tmrBase, t.apicId(s).id, asid)), BitOf(asid))
  }

  /** Marking changes one ASID on the threads that the mask names, and no other ASID and no other thread. */
  lemma MarkRefinesRelation(t: Topology, asid: uint32, mask: uint32, setValid: bool, was: uint64 -> uint32,
                            now: uint64 -> uint32, s: Slot, other: uint32)
    requires t.Distinct() && Fits(t.tmrBase, asid) && Fits(t.tmrBase, other)
    requires MarkedOn(t, asid, mask, setValid, was, now) && t.Active(s) && t.apicId(s).Found?
    ensures Invalid(t, now, s, other) <==>
            if other == asid && t.Requested(mask, s) then !setValid else Invalid(t, was, s, other)
  {
    AsidBijection(asid, other);
    AsidBijection(other, asid);
    var a := Address(t.tmrBase, t.apicId(s).id, other);
    TargetIsOwn(t, asid, mask, s, other);
    if t.Target(asid, mask, a) {
      MarkedBit(was(a), asid, setValid, BitOf(other));
    }
  }

  lemma TargetIsOwn(t: Topology, asid: uint32, mask: uint32, s: Slot, other: uint32)
    requires t.Distinct() && Fits(t.tmrBase, asid) && Fits(t.tmrBase, other) && t.Active(s) && t.apicId(s).Found?
    ensures t.Target(asid, mask, Address(t.tmrBase, t.apicId(s).id, other)) <==>
            t.Requested(mask, s) && RegOf(asid) == RegOf(other)
  {
    var a := Address(t.tmrBase, t.apicId(s).id, other);
    AddressesDiffer(t.tmrBase, t.apicId(s).id, t.apicId(s).id, other, asid);
    if t.Target(asid, mask, a) {
      var r :| t.Requested(mask, r) && t.At(asid, r, a);
      AddressesDiffer(t.tmrBase, t.apicId(s).id, t.apicId(r).id, other, asid);
    }
    if t.Requested(mask, s) && RegOf(asid) == RegOf(other) {
      assert t.At(asid, s, a);
    }
  }

  /** The threads of a complex still agree, in every register. */
  lemma MarkKeepsUniform(t: Topology, asid: uint32, mask: uint32, setValid: bool, was: uint64 -> uint32,
                         now: uint64 -> uint32, other: uint32)
    requires t.Distinct() && Fits(t.tmrBase, asid) && Fits(t.tmrBase, other) && Uniform(t, was, other)
    requires MarkedOn(t, asid, mask, setValid, was, now)
    ensures Uniform(t, now, other)
  {
    forall s, r | t.Active(s) && t.Active(r) && SameCcx(s, r) && t.apicId(s).Found? && t.apicId(r).Found?
      ensures now(Address(t.tmrBase, t.apicId(s).id, other)) == now(Address(t.tmrBase, t.apicId(r).id, other))
    {
      TargetIsOwn(t, asid, mask, s, other);
      TargetIsOwn(t, asid, mask, r, other);
    }
  }

  // The mask and the table of APIC IDs

  /** Which threads are there, by the bits of the registers that say which parts are present. */
  lemma ActiveIs(t: Topology, s: Slot)
    requires t.Valid()
    ensures t.Active(s) <==>
            && s.die < t.dies && s.ccd < 16 && s.complex < t.complexes && s.core < 8
            && s.thread < (if t.smt then 2 else 1)
            && Bit(t.ccdPresent(s.die), s.ccd) && Bit(t.corePresent(s.die, s.ccd), 8 * s.complex + s.core)
  {
  }

  /** The core of a thread, among the cores of its die. */
  function CoreOf(s: Slot): A.Core {
    A.Core(s.ccd, 8 * s.complex + s.core)
  }

  /** The package register of the core of a thread. */
  function RegisterOf(t: Topology, socket: A.Socket, s: Slot): A.ReadResult {
    socket.initpkg0(if t.complexes == 2 then 2 * s.ccd + s.complex else s.ccd, s.core)
  }

  /** The APIC ID of a thread is the one that the package register of its core gives. */
  ghost predicate Reports(t: Topology, p: A.Package, f: A.Format, socket: A.Socket, s: Slot) {
    match RegisterOf(t, socket, s)
    case NoRegister => t.apicId(s) == NoApicId
    case Value(x) =>
      t.apicId(s).Found? && t.apicId(s).id == A.LogicalId(p, f, A.LogicalOf(x, s.thread).(socket := s.die))
  }

  /** The table holds the lines of all cores of a socket. */
  ghost predicate TableHolds(p: A.Package, f: A.Format, socket: A.Socket, table: seq<uint8>) {
    && |table| == A.MAX_APIC_IDS && A.Readable(socket, socket.Rows(A.MAX_CCDS))
    && forall c :: c in socket.Rows(A.MAX_CCDS) ==>
         socket.Register(c).Value? && A.Holds(table, A.LineOf(p, f, socket, c))
  }

  /** What the table is made from is what marking goes by. */
  ghost predicate Consistent(t: Topology, p: A.Package, f: A.Format, sockets: nat -> A.Socket, table: seq<uint8>) {
    && t.Valid() && p.smt == t.smt
    && (forall die :: 0 <= die < t.dies ==>
          && TableHolds(p, f, sockets(die), table)
          && sockets(die).twoComplexes == (t.complexes == 2)
          && if t.complexes == 2 then sockets(die).coresPerCcd == 16 else sockets(die).coresPerCcd >= 8)
    && (forall s :: t.Active(s) ==>
          && sockets(s.die).enabled(CoreOf(s)) && Reports(t, p, f, sockets(s.die), s)
          && (RegisterOf(t, sockets(s.die), s).Value? ==>
                A.LogicalOf(RegisterOf(t, sockets(s.die), s).value, 0).socket == s.die))
  }

  /** A table as it is filled for a socket holds the lines of its cores. */
  lemma TableIsHeld(p: A.Package, f: A.Format, socket: A.Socket, table: seq<uint8>)
    requires A.Readable(socket, socket.Rows(A.MAX_CCDS))
    requires A.Lists(A.LinesOf(p, f, socket, socket.Rows(A.MAX_CCDS)), table)
    ensures TableHolds(p, f, socket, table)
  {
    var cores := socket.Rows(A.MAX_CCDS);
    forall c | c in cores
      ensures socket.Register(c).Value? && A.Holds(table, A.LineOf(p, f, socket, c))
    {
      var i :| 0 <= i < |cores| && cores[i] == c;
      assert A.LinesOf(p, f, socket, cores)[i] == A.LineOf(p, f, socket, c);
    }
  }

  /** The number by which a mask names the complex of a thread, told by the table. */
  function EntryNumber(t: Topology, s: Slot): nat {
    16 * s.die + if t.complexes == 2 then 2 * s.ccd + s.complex else s.ccd
  }

  lemma PositionIsNumber(t: Topology, s: Slot)
    requires t.Valid() && t.Active(s)
    ensures t.Position(s.die, s.ccd, s.complex) == EntryNumber(t, s) < 32
    ensures s.ccd < 16 && (t.complexes == 2 ==> s.ccd < 8)
  {
    t.PositionBound(s.die, s.ccd, s.complex);
  }

  /** The threads whose number both masks have a bit for are marked, and no other thread. */
  ghost predicate MarkedByNumber(t: Topology, asid: uint32, mask: uint32, setValid: bool, was: uint64 -> uint32,
                                 now: uint64 -> uint32)
  {
    forall s :: t.Active(s) && t.apicId(s).Found? ==>
      var a := Address(t.tmrBase, t.apicId(s).id, asid);
      now(a) == if Bit(mask, EntryNumber(t, s)) && Bit(t.ccxPresent, EntryNumber(t, s)) then
                  Marked(was(a), asid, setValid)
                else was(a)
  }

  lemma OnIsByNumber(t: Topology, asid: uint32, mask: uint32, setValid: bool, was: uint64 -> uint32,
                     now: uint64 -> uint32)
    requires t.Valid() && t.Distinct() && Fits(t.tmrBase, asid) && MarkedOn(t, asid, mask, setValid, was, now)
    ensures MarkedByNumber(t, asid, mask, setValid, was, now)
  {
    forall s | t.Active(s) && t.apicId(s).Found?
      ensures t.Target(asid, mask, Address(t.tmrBase, t.apicId(s).id, asid)) <==>
              Bit(mask, EntryNumber(t, s)) && Bit(t.ccxPresent, EntryNumber(t, s))
    {
      PositionIsNumber(t, s);
      TargetIsOwn(t, asid, mask, s, asid);
    }
  }

  /** The line of the core of a thread, at the ID of the thread. */
  lemma EntryOfThread(t: Topology, p: A.Package, f: A.Format, socket: A.Socket, table: seq<uint8>, s: Slot)
    requires TableHolds(p, f, socket, table) && CoreOf(s) in socket.Rows(A.MAX_CCDS)
    requires s.thread < if p.smt then 2 else 1
    requires socket.Register(CoreOf(s)) == RegisterOf(t, socket, s) && Reports(t, p, f, socket, s)
    requires RegisterOf(t, socket, s).Value? && A.LogicalOf(RegisterOf(t, socket, s).value, 0).socket == s.die
    ensures t.apicId(s).Found? && t.apicId(s).id < |table|
    ensures table[t.apicId(s).id] == A.EntryOf(socket.PhysicalCcx(CoreOf(s)), s.die)
  {
    var x, line := RegisterOf(t, socket, s).value, A.LineOf(p, f, socket, CoreOf(s));
    var id := A.LogicalId(p, f, A.LogicalOf(x, s.thread));
    assert A.LogicalOf(x, s.thread).(socket := s.die) == A.LogicalOf(x, s.thread);
    assert id in line.ids by {
      assert line.ids[s.thread] == id;
    }
  }

  lemma EntryIn(t: Topology, p: A.Package, f: A.Format, socket: A.Socket, table: seq<uint8>, s: Slot)
    requires t.Valid() && t.Active(s) && p.smt == t.smt && socket.twoComplexes == (t.complexes == 2)
    requires if t.complexes == 2 then socket.coresPerCcd == 16 else socket.coresPerCcd >= 8
    requires TableHolds(p, f, socket, table) && socket.enabled(CoreOf(s)) && Reports(t, p, f, socket, s)
    requires RegisterOf(t, socket, s).Value? ==> A.LogicalOf(RegisterOf(t, socket, s).value, 0).socket == s.die
    ensures t.apicId(s).Found? && t.apicId(s).id < |table|
    ensures table[t.apicId(s).id] == A.EntryOf(socket.PhysicalCcx(CoreOf(s)), s.die)
    ensures socket.PhysicalCcx(CoreOf(s)) == if t.complexes == 2 then 2 * s.ccd + s.complex else s.ccd
  {
    A.ComplexOfCore(socket, s.ccd, s.complex, s.core);
    A.RowsAre(socket, A.MAX_CCDS, CoreOf(s));
    EntryOfThread(t, p, f, socket, table, s);
  }

  /** The entry of a thread in the table is the position of the bit that names its complex. */
  lemma EntryIsPosition(t: Topology, p: A.Package, f: A.Format, sockets: nat -> A.Socket, table: seq<uint8>, s: Slot)
    requires Consistent(t, p, f, sockets, table) && t.Active(s)
    ensures t.apicId(s).Found? && t.apicId(s).id < |table|
    ensures table[t.apicId(s).id] == A.EntryOf(sockets(s.die).PhysicalCcx(CoreOf(s)), s.die)
    ensures table[t.apicId(s).id] == 0x80 + t.Position(s.die, s.ccd, s.complex)
    ensures t.Position(s.die, s.ccd, s.complex) == EntryNumber(t, s) < 32
  {
    EntryIn(t, p, f, sockets(s.die), table, s);
    PositionIsNumber(t, s);
    A.EntryPosition(sockets(s.die).PhysicalCcx(CoreOf(s)), s.die);
  }

  /** The APIC ID of a thread is in the list. */
  ghost predicate InList(t: Topology, ids: seq<uint32>, r: Slot) {
    t.Active(r) && t.apicId(r).Found? && t.apicId(r).id in ids
  }

  /** Some thread of the complex of `s` is in the list. */
  ghost predicate ComplexListed(t: Topology, ids: seq<uint32>, s: Slot) {
    exists r :: InList(t, ids, r) && SameCcx(r, s)
  }

  /** Every ID of the list is that of a thread. */
  ghost predicate OfThreads(t: Topology, ids: seq<uint32>) {
    forall id :: id in ids ==> exists r :: t.Active(r) && t.apicId(r) == Found(id)
  }

  lemma ThreadOfEntry(t: Topology, p: A.Package, f: A.Format, sockets: nat -> A.Socket, table: seq<uint8>,
                      ids: seq<uint32>, s: Slot)
    requires Consistent(t, p, f, sockets, table) && OfThreads(t, ids) && t.Active(s)
    requires |table| == A.MAX_APIC_IDS && A.Listed(ids, |ids|, table, t.Ccx(s))
    ensures ComplexListed(t, ids, s)
  {
    var i :| 0 <= i < |ids| && ids[i] < A.MAX_APIC_IDS && table[ids[i]] == A.ENTRY_VALID + t.Ccx(s);
    assert ids[i] in ids;
    var r :| t.Active(r) && t.apicId(r) == Found(ids[i]);
    EntryIsPosition(t, p, f, sockets, table, r);
    SameComplex(t, r, s);
    assert InList(t, ids, r);
  }

  /** The mask for a list of APIC IDs names exactly the threads of the complexes of those IDs. */
  lemma ListedIsRequested(t: Topology, p: A.Package, f: A.Format, sockets: nat -> A.Socket, table: seq<uint8>,
                          ids: seq<uint32>, mask: uint32, s: Slot)
    requires Consistent(t, p, f, sockets, table) && OfThreads(t, ids) && t.Active(s)
    requires forall k :: 0 <= k < 32 ==> (Bit(mask, k) <==> A.Listed(ids, |ids|, table, k))
    ensures t.Requested(mask, s) <==> ComplexListed(t, ids, s) && Bit(t.ccxPresent, EntryNumber(t, s))
  {
    PositionIsNumber(t, s);
    if A.Listed(ids, |ids|, table, t.Ccx(s)) {
      ThreadOfEntry(t, p, f, sockets, table, ids, s);
    }
    if ComplexListed(t, ids, s) {
      var r :| InList(t, ids, r) && SameCcx(r, s);
      EntryIsPosition(t, p, f, sockets, table, r);
      var i :| 0 <= i < |ids| && ids[i] == t.apicId(r).id;
      assert A.Listed(ids, |ids|, table, t.Ccx(s));
    }
  }

  /** Marking with the mask for a list of APIC IDs changes one ASID on the threads of the complexes of those IDs that
      are present, and nothing else. */
  lemma MarkByApicIds(t: Topology, p: A.Package, f: A.Format, sockets: nat -> A.Socket, table: seq<uint8>,
                      ids: seq<uint32>, mask: uint32, asid: uint32, setValid: bool, was: uint64 -> uint32,
                      now: uint64 -> uint32, s: Slot, other: uint32)
    requires Consistent(t, p, f, sockets, table) && OfThreads(t, ids) && t.Distinct() && t.Active(s)
    requires forall k :: 0 <= k < 32 ==> (Bit(mask, k) <==> A.Listed(ids, |ids|, table, k))
    requires Fits(t.tmrBase, asid) && Fits(t.tmrBase, other) && MarkedOn(t, asid, mask, setValid, was, now)
    ensures t.apicId(s).Found?
    ensures Invalid(t, now, s, other) <==>
            if other == asid && ComplexListed(t, ids, s) && Bit(t.ccxPresent, EntryNumber(t, s)) then !setValid
            else Invalid(t, was, s, other)
  {
    EntryIsPosition(t, p, f, sockets, table, s);
    ListedIsRequested(t, p, f, sockets, table, ids, mask, s);
    MarkRefinesRelation(t, asid, mask, setValid, was, now, s, other);
  }

  /** The APIC IDs of threads with different logical numbers are different, whatever the format of the package. */
  lemma LogicalNumbersSuffice(t: Topology, p: A.Package, f: A.Format, number: Slot -> A.Logical)
    requires A.FormatOf(p) == A.Accepted(f)
    requires forall s :: t.Active(s) ==> A.Within(p, number(s)) && number(s).socket <= p.MaxSocket()
    requires forall s :: t.Active(s) && t.apicId(s).Found? ==> t.apicId(s).id == A.LogicalId(p, f, number(s))
    requires forall s, r :: t.Active(s) && t.Active(r) && number(s) == number(r) ==> s == r
    ensures t.Distinct()
  {
    A.FormatAlwaysFits(p);
    Pow2Mono(f.top, 12);
    assert Pow2(12) == 4096 by {
      Pow2Add(6, 6);
      assert Pow2(6) == 64;
    }
    forall s, r | t.Active(s) && t.Active(r) && t.apicId(s).Found? && t.apicId(r).Found?
      ensures t.apicId(s).id < 0x10_0000 && (t.apicId(s).id == t.apicId(r).id ==> s == r)
    {
      A.IdsDiffer(p, f, number(s), number(r));
    }
  }
}
