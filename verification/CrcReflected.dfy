/** The same checksum in the reflected form in which section 12.1 of RFC 3720 is usually implemented. */
module CrcReflected {
  import opened Crc

  const REFLECTED_POLY: bv32 := 0x82F6_3B78

  function ShiftRight(r: bv32): bv32 {
    if r & 1 != 0 then (r >> 1) ^ REFLECTED_POLY else r >> 1
  }

  function ShiftRightN(r: bv32, n: nat): bv32
    decreases n
  {
    if n == 0 then r else ShiftRightN(ShiftRight(r), n - 1)
  }

  /** The reflected register: an octet is added at the low end, then come eight turns. */
  function Reflected(s: seq<bv8>): bv32 {
    if s == [] then 0xFFFF_FFFF else ShiftRightN(Reflected(s[..|s| - 1]) ^ (s[|s| - 1] as bv32), 8)
  }

  function RightBit(r: bv32, bit: bool): bv32 {
    ShiftRight(if bit then r ^ 1 else r)
  }

  function RightBits(r: bv32, bits: seq<bool>): bv32
    decreases |bits|
  {
    if bits == [] then r else RightBits(RightBit(r, bits[0]), bits[1..])
  }

  /** The `n` lowest bits of a word, from the bottom. */
  function LowBits(x: bv32, n: nat): (bits: seq<bool>)
    ensures |bits| == n
    decreases n
  {
    if n == 0 then [] else [x & 1 != 0] + LowBits(x >> 1, n - 1)
  }

  /** The word has no bits from position `n` up. */
  function Fits(x: bv32, n: nat): bool
    decreases n
  {
    if n == 0 then x == 0 else Fits(x >> 1, n - 1)
  }

  /** A mirror exchanges the two ends of a word, the two directions and the two polynomials. */
  ghost predicate Mirror(f: bv32 -> bv32) {
    && (forall c :: (f(c) & 1 != 0) == (c & TOP != 0))
    && (forall c :: f(c << 1) == f(c) >> 1)
    && (forall c :: f(c ^ CRC32C_POLY) == f(c) ^ REFLECTED_POLY)
    && (forall c :: f(c ^ TOP) == f(c) ^ 1)
  }

  lemma ReversalIsMirror()
    ensures Mirror(ReverseBits)
  {
    forall c: bv32
      ensures (ReverseBits(c) & 1 != 0) == (c & TOP != 0)
    {
      ReversedLow(c);
    }
    forall c: bv32
      ensures ReverseBits(c << 1) == ReverseBits(c) >> 1
    {
      ReversedDouble(c);
    }
    forall c: bv32
      ensures ReverseBits(c ^ CRC32C_POLY) == ReverseBits(c) ^ REFLECTED_POLY
    {
      ReversedPoly(c);
    }
    forall c: bv32
      ensures ReverseBits(c ^ TOP) == ReverseBits(c) ^ 1
    {
      ReversedFlip(c);
    }
  }

  /** Any mirror turns one register into the other. */
  lemma MirroredShift(f: bv32 -> bv32, c: bv32)
    requires Mirror(f)
    ensures f(Shift(c)) == ShiftRight(f(c))
  {
    assert f(c << 1) == f(c) >> 1;
    assert f((c << 1) ^ CRC32C_POLY) == f(c << 1) ^ REFLECTED_POLY;
  }

  lemma ReversedLow(c: bv32)
    ensures (ReverseBits(c) & 1 != 0) == (c & TOP != 0)
  {
  }

  lemma ReversedDouble(c: bv32)
    ensures ReverseBits(c << 1) == ReverseBits(c) >> 1
  {
  }

  lemma ReversedPoly(x: bv32)
    ensures ReverseBits(x ^ CRC32C_POLY) == ReverseBits(x) ^ REFLECTED_POLY
  {
  }

  lemma ReversedFlip(c: bv32)
    ensures ReverseBits(c ^ TOP) == ReverseBits(c) ^ 1
  {
  }

  lemma ReversedTop(x: bv32)
    ensures (ReverseBits(x) & TOP != 0) == (x & 1 != 0)
  {
  }

  lemma ReversedHalf(x: bv32)
    ensures ReverseBits(x) << 1 == ReverseBits(x >> 1)
  {
  }

  lemma ReversedComplement(x: bv32)
    ensures ReverseBits(!x) == !ReverseBits(x)
  {
  }

  lemma {:induction false} ReversedBits(x: bv32, n: nat)
    ensures TopBits(ReverseBits(x), n) == LowBits(x, n)
    decreases n
  {
    if n > 0 {
      ReversedTop(x);
      ReversedHalf(x);
      ReversedBits(x >> 1, n - 1);
    }
  }

  lemma {:induction false} ReversedFeed(c: bv32, bits: seq<bool>)
    ensures ReverseBits(Feed(c, bits)) == RightBits(ReverseBits(c), bits)
    decreases |bits|
  {
    if bits != [] {
      ReversedFeedBit(c, bits[0]);
      ReversedFeed(FeedBit(c, bits[0]), bits[1..]);
    }
  }

  lemma ReversedFeedBit(c: bv32, bit: bool)
    ensures ReverseBits(FeedBit(c, bit)) == RightBit(ReverseBits(c), bit)
  {
    ReversalIsMirror();
    MirroredFeedBit(ReverseBits, c, bit);
  }

  lemma MirroredFeedBit(f: bv32 -> bv32, c: bv32, bit: bool)
    requires Mirror(f)
    ensures f(FeedBit(c, bit)) == RightBit(f(c), bit)
  {
    MirroredShift(f, if bit then c ^ TOP else c);
  }

  lemma EvenTurn(r: bv32, x: bv32)
    requires x & 1 == 0
    ensures ShiftRight(r) ^ (x >> 1) == ShiftRight(r ^ x)
  {
  }

  lemma OddTurn(r: bv32, x: bv32)
    requires x & 1 != 0
    ensures ShiftRight(r ^ 1) ^ (x >> 1) == ShiftRight(r ^ x)
  {
  }

  lemma NothingLeft(r: bv32)
    ensures r ^ 0 == r
  {
  }

  /** Taking in the bits one by one is adding them all at once. */
  lemma {:induction false} BitsAreWord(r: bv32, x: bv32, n: nat)
    requires Fits(x, n)
    ensures RightBits(r, LowBits(x, n)) == ShiftRightN(r ^ x, n)
    decreases n
  {
    if n == 0 {
      NothingLeft(r);
    } else {
      var first := RightBit(r, x & 1 != 0);
      BitsAreWord(first, x >> 1, n - 1);
      FirstOfBits(r, x, n);
      TurnWord(r, x);
    }
  }

  lemma FirstOfBits(r: bv32, x: bv32, n: nat)
    requires n > 0
    ensures RightBits(r, LowBits(x, n)) == RightBits(RightBit(r, x & 1 != 0), LowBits(x >> 1, n - 1))
  {
    var bits := LowBits(x, n);
    assert bits[0] == (x & 1 != 0) && bits[1..] == LowBits(x >> 1, n - 1);
  }

  lemma TurnWord(r: bv32, x: bv32)
    ensures RightBit(r, x & 1 != 0) ^ (x >> 1) == ShiftRight(r ^ x)
  {
    if x & 1 != 0 {
      OddTurn(r, x);
    } else {
      EvenTurn(r, x);
    }
  }

  lemma OctetFits(b: bv8)
    ensures Fits(b as bv32, 8)
  {
    var x := b as bv32;
    var a1 := x >> 1;
    var a2 := a1 >> 1;
    var a3 := a2 >> 1;
    var a4 := a3 >> 1;
    assert Fits(a4, 4) by {
      assert (((a4 >> 1) >> 1) >> 1) >> 1 == 0;
      assert Fits(((a4 >> 1) >> 1) >> 1, 1);
      assert Fits((a4 >> 1) >> 1, 2);
    }
    assert Fits(a3, 5) && Fits(a2, 6) && Fits(a1, 7);
  }

  /** The register of the MSB-first loop is the reflected register, mirrored. */
  lemma {:induction false} StateIsReflected(s: seq<bv8>)
    ensures ReverseBits(State(s)) == Reflected(s)
  {
    if s == [] {
      assert ReverseBits(INITIAL_POLY) == 0xFFFF_FFFF;
    } else {
      var t, b := s[..|s| - 1], s[|s| - 1];
      assert s == t + [b];
      OneMore(t, b);
      StateIsReflected(t);
      ReversedFeed(State(t), OctetBits(b));
      ReversedBits(b as bv32, 8);
      OctetFits(b);
      BitsAreWord(Reflected(t), b as bv32, 8);
    }
  }

  /** The checksum equals the complement of the reflected register. */
  lemma Crc32cIsReflected(s: seq<bv8>)
    ensures Crc32c(s) == !Reflected(s)
  {
    StateIsReflected(s);
    ReversedComplement(State(s));
  }

  lemma Rejoined(x: bv32)
    ensures ((x >> 1) << 1) | (if x & 1 != 0 then 1 else 0) == x
  {
  }

  /** The word with the given bits, from the bottom. */
  function FromBits(bits: seq<bool>): bv32 {
    if bits == [] then 0 else (FromBits(bits[1..]) << 1) | (if bits[0] then 1 else 0)
  }

  /** The low bits determine the word. */
  lemma {:induction false} LowBitsRestored(x: bv32, n: nat)
    requires Fits(x, n)
    ensures FromBits(LowBits(x, n)) == x
    decreases n
  {
    if n > 0 {
      assert LowBits(x, n)[1..] == LowBits(x >> 1, n - 1);
      LowBitsRestored(x >> 1, n - 1);
      Rejoined(x);
    }
  }

  /** Different octets have different message bits. */
  lemma OctetBitsInjective(a: bv8, b: bv8)
    requires OctetBits(a) == OctetBits(b)
    ensures a == b
  {
    ReversedBits(a as bv32, 8);
    ReversedBits(b as bv32, 8);
    OctetFits(a);
    OctetFits(b);
    LowBitsRestored(a as bv32, 8);
    LowBitsRestored(b as bv32, 8);
    Narrowed(a);
    Narrowed(b);
  }

  lemma Narrowed(a: bv8)
    ensures ((a as bv32) & 0xFF) as bv8 == a
  {
  }
}
