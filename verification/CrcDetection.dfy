/** What CRC-32C is guaranteed to detect. */
module CrcDetection {
  import opened Crc
  import SR = ShiftRegister

  function Sum(a: bv32, b: bv32): bv32 {
    a ^ b
  }

  function Half(x: bv32): bv32 {
    x >> 1
  }

  function Double(x: bv32): bv32 {
    x << 1
  }

  function IsTop(x: bv32): bool {
    x & TOP != 0
  }

  /** The register turned back by one. */
  function Back(d: bv32): bv32 {
    if d & 1 != 0 then ((d ^ CRC32C_POLY) >> 1) | TOP else d >> 1
  }

  /** The `n` lowest bits of a word are zero. */
  function LowClear(x: bv32, n: nat): bool
    decreases n
  {
    n == 0 || (x & 1 == 0 && LowClear(x >> 1, n - 1))
  }

  /** The CRC-32C register as an instance of the theory. */
  function Register(): SR.Ops<bv32> {
    SR.Ops(Sum, 0, CRC32C_POLY, Back, TOP, IsTop, Half, Double, LowClear)
  }

  lemma SumAssociative(a: bv32, b: bv32, c: bv32)
    ensures Sum(Sum(a, b), c) == Sum(a, Sum(b, c))
  {
  }

  lemma SumZero(a: bv32)
    ensures Sum(a, 0) == a
  {
  }

  lemma SumCancelsLeft(a: bv32, b: bv32)
    ensures Sum(a, Sum(a, b)) == b
  {
  }

  lemma SumCancelsRight(a: bv32, b: bv32)
    ensures Sum(Sum(b, a), a) == b
  {
  }

  lemma BackLow(a: bv32)
    requires a & TOP == 0
    ensures Back(Shift(a)) == a
  {
  }

  lemma BackHigh(a: bv32)
    requires a & TOP != 0
    ensures Back(Shift(a)) == a
  {
  }

  lemma TopStays(a: bv32, x: bv32)
    ensures IsTop(a ^ (x >> 1)) == IsTop(a)
  {
  }

  lemma DoubledSum(a: bv32, x: bv32)
    requires x & 1 == 0
    ensures (a ^ (x >> 1)) << 1 == (a << 1) ^ x
  {
  }

  lemma SumCommutes(a: bv32, b: bv32)
    ensures Sum(a, b) == Sum(b, a)
  {
  }

  /** The two descriptions of one turn agree. */
  lemma ShiftIsShift(c: bv32)
    ensures Shift(c) == SR.Shift(Register(), c)
  {
  }

  lemma FirstIsTop(p: bool, x: bv32)
    requires x & 1 == 0
    ensures IsTop(Sum(if p then TOP else 0, Half(x))) == p
  {
  }

  lemma RestIsDouble(x: bv32)
    requires x & 1 == 0
    ensures Double(Sum(0, Half(x))) == x
  {
  }

  lemma RestUnderTop(x: bv32)
    requires x & 1 == 0
    ensures Double(Sum(TOP, Half(x))) == x
  {
  }

  lemma EvenIsLow(x: bv32)
    ensures LowClear(x, 1) <==> x & 1 == 0
  {
    assert LowClear(x >> 1, 0);
  }

  lemma {:induction false} ZeroLow(n: nat)
    ensures LowClear(0, n)
  {
    if n > 0 {
      ZeroLow(n - 1);
      assert (0 as bv32) >> 1 == 0 && (0 as bv32) & 1 == 0;
    }
  }

  lemma SumEven(u: bv32, h: bv32)
    requires u & 1 == 0 && h & 1 == 0
    ensures (u ^ h) & 1 == 0
  {
  }

  lemma HalvedSum(u: bv32, h: bv32)
    ensures (u ^ h) >> 1 == (u >> 1) ^ (h >> 1)
  {
  }

  lemma {:induction false} SumLow(u: bv32, h: bv32, n: nat)
    requires LowClear(u, n) && LowClear(h, n)
    ensures LowClear(u ^ h, n)
    decreases n
  {
    if n > 0 {
      SumLow(u >> 1, h >> 1, n - 1);
      SumEven(u, h);
      HalvedSum(u, h);
    }
  }

  lemma {:induction false} FewerLow(x: bv32, n: nat, m: nat)
    requires m <= n && LowClear(x, n)
    ensures LowClear(x, m)
    decreases n
  {
    if m > 0 {
      FewerLow(x >> 1, n - 1, m - 1);
    }
  }

  lemma TopLow()
    ensures LowClear(TOP, 31)
  {
    assert LowClear(0x80, 7);
    assert LowClear(0x8000, 15);
    assert LowClear(0x80_0000, 23);
  }

  lemma TopOrZeroLow(p: bool, n: nat)
    requires n <= 31
    ensures LowClear(if p then TOP else 0, n)
  {
    if p {
      TopLow();
      FewerLow(TOP, 31, n);
    } else {
      ZeroLow(n);
    }
  }

  lemma HalfClear(x: bv32, n: nat)
    requires n > 0 && LowClear(x, n)
    ensures LowClear(Half(x), n - 1)
  {
  }

  lemma SumClear(u: bv32, h: bv32, n: nat)
    requires LowClear(u, n) && LowClear(h, n)
    ensures LowClear(Sum(u, h), n)
  {
    SumLow(u, h, n);
  }

  lemma HalfLow(x: bv32, n: nat, p: bool)
    requires 0 < n <= 32 && LowClear(x, n)
    ensures LowClear(Sum(if p then TOP else 0, Half(x)), n - 1)
  {
    TopOrZeroLow(p, n - 1);
    HalfClear(x, n);
    SumClear(if p then TOP else 0, Half(x), n - 1);
  }

  lemma LowEven(x: bv32, n: nat)
    requires 0 < n && LowClear(x, n)
    ensures LowClear(x, 1)
  {
    EvenIsLow(x);
  }

  lemma RegisterAssociative()
    ensures SR.Associative(Register())
  {
    forall a: bv32, b: bv32, c: bv32
      ensures Sum(Sum(a, b), c) == Sum(a, Sum(b, c))
    {
      SumAssociative(a, b, c);
    }
  }

  lemma RegisterZero()
    ensures SR.Zero(Register())
  {
    forall a: bv32
      ensures Sum(a, 0) == a
    {
      SumZero(a);
    }
  }

  lemma RegisterCancels()
    ensures SR.Cancels(Register())
  {
    forall a: bv32, b: bv32
      ensures Sum(a, Sum(a, b)) == b
    {
      SumCancelsLeft(a, b);
    }
    forall a: bv32, b: bv32
      ensures Sum(Sum(b, a), a) == b
    {
      SumCancelsRight(a, b);
    }
  }

  lemma RegisterInjective()
    ensures SR.Injective(Register())
  {
    forall a: bv32
      ensures Back(SR.Shift(Register(), a)) == a
    {
      ShiftIsShift(a);
      if a & TOP == 0 {
        BackLow(a);
      } else {
        BackHigh(a);
      }
    }
  }

  lemma RegisterHalving()
    ensures SR.Halving(Register())
  {
    forall n: nat | n <= 32
      ensures LowClear(0, n)
    {
      ZeroLow(n);
    }
    forall x: bv32, n: nat, bit: bool | 0 < n <= 32 && LowClear(x, n)
      ensures LowClear(Sum(SR.First(Register(), bit), Half(x)), n - 1)
    {
      HalfLow(x, n, bit);
    }
  }

  lemma RegisterLow()
    ensures SR.LowIsEven(Register())
  {
    forall x: bv32, n: nat | 0 < n <= 32 && LowClear(x, n)
      ensures LowClear(x, 1)
    {
      LowEven(x, n);
    }
  }

  lemma RegisterHalvesAdd()
    ensures SR.HalvesAdd(Register())
  {
    forall a: bv32, x: bv32 | LowClear(x, 1)
      ensures IsTop(Sum(a, Half(x))) == IsTop(a)
    {
      TopStays(a, x);
    }
    forall a: bv32, x: bv32 | LowClear(x, 1)
      ensures Double(Sum(a, Half(x))) == Sum(Double(a), x)
    {
      EvenIsLow(x);
      DoubledSum(a, x);
    }
  }

  lemma RegisterCommutes()
    ensures SR.Commutes(Register())
  {
    forall a: bv32, b: bv32
      ensures Sum(a, b) == Sum(b, a)
    {
      SumCommutes(a, b);
    }
  }

  lemma RegisterParts()
    ensures SR.Parts(Register())
  {
    forall x: bv32, p: bool | LowClear(x, 1)
      ensures IsTop(Sum(SR.First(Register(), p), Half(x))) == p
    {
      EvenIsLow(x);
      FirstIsTop(p, x);
    }
    forall x: bv32, p: bool | LowClear(x, 1)
      ensures Double(Sum(SR.First(Register(), p), Half(x))) == x
    {
      EvenIsLow(x);
      if p {
        RestUnderTop(x);
      } else {
        RestIsDouble(x);
      }
    }
  }

  lemma RegisterIsLawful()
    ensures SR.Lawful(Register())
  {
    RegisterAssociative();
    RegisterCancels();
    RegisterInjective();
    RegisterHalving();
    RegisterLow();
    RegisterHalvesAdd();
    RegisterCommutes();
    RegisterZero();
    RegisterParts();
  }

  lemma FeedBitIsFeedBit(c: bv32, bit: bool)
    ensures FeedBit(c, bit) == SR.FeedBit(Register(), c, bit)
  {
    SumZero(c);
    ShiftIsShift(if bit then c ^ TOP else c);
  }

  lemma {:induction false} FeedIsFeed(c: bv32, bits: seq<bool>)
    ensures Feed(c, bits) == SR.Feed(Register(), c, bits)
    decreases |bits|
  {
    if bits != [] {
      var next := FeedBit(c, bits[0]);
      FeedBitIsFeedBit(c, bits[0]);
      FeedIsFeed(next, bits[1..]);
      assert Feed(c, bits) == Feed(next, bits[1..]);
    }
  }

  /** Two octet strings whose message bits differ in a burst of at most 32 bits have different checksums. */
  lemma BurstChangesCrc(s: seq<bv8>, t: seq<bv8>, at: nat)
    requires SR.Burst(Bits(s), Bits(t), at)
    ensures Crc32c(s) != Crc32c(t)
  {
    RegisterIsLawful();
    SR.BurstLeavesTrace(Register(), INITIAL_POLY, Bits(s), Bits(t), at);
    FeedIsFeed(INITIAL_POLY, Bits(s));
    FeedIsFeed(INITIAL_POLY, Bits(t));
    ReversalKeepsDifference(State(s), State(t));
  }

  lemma ReversalKeepsDifference(a: bv32, b: bv32)
    requires a != b
    ensures ReverseBits(!a) != ReverseBits(!b)
  {
    ReversedTwice(a);
    ReversedTwice(b);
  }

  lemma ReversedTwice(x: bv32)
    ensures !ReverseBits(ReverseBits(!x)) == x
  {
  }
}
