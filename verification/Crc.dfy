/** CRC-32C bit by bit, its three-lane interleave over the VMSA, and what the checksums detect. */
module Crc {
  const CRC32C_POLY: bv32 := 0x1EDC6F41
  const INITIAL_POLY: bv32 := 0xFFFF_FFFF
  const TOP: bv32 := 0x8000_0000
  const CRC_SKIP: nat := 24

  datatype Status = Success | InvalidParams

  /** Reverses the bits of a 32-bit word. */
  function ReverseBits(x: bv32): bv32 {
    var y := ((x & 0x5555_5555) << 1) | ((x >> 1) & 0x5555_5555);
    var z := ((y & 0x3333_3333) << 2) | ((y >> 2) & 0x3333_3333);
    var w := ((z & 0x0F0F_0F0F) << 4) | ((z >> 4) & 0x0F0F_0F0F);
    (w << 24) | ((w & 0xFF00) << 8) | ((w >> 8) & 0xFF00) | (w >> 24)
  }

  /** One turn of the shift register. */
  function Shift(c: bv32): bv32 {
    if c & TOP != 0 then (c << 1) ^ CRC32C_POLY else c << 1
  }

  /** The register after one message bit. */
  function FeedBit(c: bv32, bit: bool): bv32 {
    Shift(if bit then c ^ TOP else c)
  }

  /** The register after a string of message bits. */
  function Feed(c: bv32, bits: seq<bool>): bv32
    decreases |bits|
  {
    if bits == [] then c else Feed(FeedBit(c, bits[0]), bits[1..])
  }

  /** The `n` topmost bits of a word, from the top. */
  function TopBits(x: bv32, n: nat): (bits: seq<bool>)
    ensures |bits| == n
    decreases n
  {
    if n == 0 then [] else [x & TOP != 0] + TopBits(x << 1, n - 1)
  }

  /** The message bits of an octet: the least significant one first. */
  function OctetBits(b: bv8): (bits: seq<bool>)
    ensures |bits| == 8
  {
    TopBits(ReverseBits(b as bv32), 8)
  }

  /** All message bits of an octet string. */
  function Bits(s: seq<bv8>): (bits: seq<bool>)
    ensures |bits| == 8 * |s|
  {
    if s == [] then [] else Bits(s[..|s| - 1]) + OctetBits(s[|s| - 1])
  }

  /** The register after an octet string. */
  function State(s: seq<bv8>): bv32 {
    Feed(INITIAL_POLY, Bits(s))
  }

  /** The checksum of an octet string. */
  function Crc32c(s: seq<bv8>): bv32 {
    ReverseBits(!State(s))
  }

  lemma {:induction false} FeedConcat(c: bv32, a: seq<bool>, b: seq<bool>)
    ensures Feed(c, a + b) == Feed(Feed(c, a), b)
    decreases |a|
  {
    if a == [] {
      assert a + b == b;
    } else {
      assert (a + b)[0] == a[0] && (a + b)[1..] == a[1..] + b;
      FeedConcat(FeedBit(c, a[0]), a[1..], b);
    }
  }

  lemma OneMore(s: seq<bv8>, b: bv8)
    ensures State(s + [b]) == Feed(State(s), OctetBits(b))
  {
    var t := s + [b];
    assert t[..|t| - 1] == s && t[|t| - 1] == b;
    FeedConcat(INITIAL_POLY, Bits(s), OctetBits(b));
  }

  predicate IsState(r: bv32, s: seq<bv8>) {
    r == State(s)
  }

  /** The register has taken in exactly these octets. A proof that does not mention `IsState` takes it as a whole. */
  ghost predicate Reached(r: bv32, s: seq<bv8>) {
    forall t :: t == s ==> IsState(r, t)
  }

  lemma ReachedState(r: bv32, s: seq<bv8>)
    requires Reached(r, s)
    ensures r == State(s)
  {
    assert IsState(r, s);
  }

  lemma ReachedStart()
    ensures Reached(INITIAL_POLY, [])
  {
  }

  lemma ReachedMore(r: bv32, s: seq<bv8>, b: bv8)
    requires Reached(r, s)
    ensures Reached(Feed(r, OctetBits(b)), s + [b])
  {
    ReachedState(r, s);
    OneMore(s, b);
  }

  /** Takes in one octet. */
  method FeedOctet(crc: bv32, b: bv8, ghost fed: seq<bv8>) returns (r: bv32)
    requires Reached(crc, fed)
    ensures Reached(r, fed + [b])
  {
    ReachedMore(crc, fed, b);
    r := FeedBitsOf(crc, b);
  }

  /** The inner loop: eight message bits, each taken from the top of `octet`. */
  method FeedBitsOf(crc: bv32, b: bv8) returns (r: bv32)
    ensures r == Feed(crc, OctetBits(b))
  {
    r := crc;
    var octet := ReverseBits(b as bv32);
    ghost var bits := OctetBits(b);
    for j := 0 to 8
      invariant Feed(r, TopBits(octet, 8 - j)) == Feed(crc, bits)
    {
      SameBit(r, octet);
      FeedTop(r, octet, 8 - j);
      r := if (r ^ octet) & TOP != 0 then (r << 1) ^ CRC32C_POLY else r << 1;
      octet := octet << 1;
    }
  }

  lemma FeedTop(r: bv32, x: bv32, n: nat)
    requires n > 0
    ensures Feed(r, TopBits(x, n)) == Feed(FeedBit(r, x & TOP != 0), TopBits(x << 1, n - 1))
  {
    var bits := TopBits(x, n);
    assert bits[0] == (x & TOP != 0) && bits[1..] == TopBits(x << 1, n - 1);
  }

  lemma SameBit(r: bv32, octet: bv32)
    ensures FeedBit(r, octet & TOP != 0) == if (r ^ octet) & TOP != 0 then (r << 1) ^ CRC32C_POLY else r << 1
  {
    TopSum(r, octet);
    TopOut(r);
  }

  lemma TopSum(a: bv32, b: bv32)
    ensures (a ^ b) & TOP == (a & TOP) ^ (b & TOP)
    ensures a & TOP == 0 || a & TOP == TOP
  {
  }

  lemma TopOut(r: bv32)
    ensures (r ^ TOP) << 1 == r << 1
    ensures (r ^ TOP) & TOP == (r & TOP) ^ TOP
  {
  }

  /** The plain CRC-32C of a buffer. */
  method ComputeCrc32c(buffer: seq<bv8>) returns (status: Status, crc32: bv32)
    ensures status == if |buffer| == 0 then InvalidParams else Success
    ensures status == Success ==> crc32 == Crc32c(buffer)
  {
    crc32 := 0;
    if |buffer| == 0 {
      return InvalidParams, crc32;
    }
    var crc := INITIAL_POLY;
    ghost var done := [];
    ReachedStart();
    for i := 0 to |buffer|
      invariant Reached(crc, done)
      invariant done == buffer[..i]
    {
      SliceSnoc([], buffer, 0, i);
      crc := FeedOctet(crc, buffer[i], done);
      done := done + [buffer[i]];
    }
    SliceAll([], buffer, 0, |buffer|);
    ReachedState(crc, buffer);
    return Success, ReverseBits(!crc);
  }

  /** The octets of one lane: eight out of every 24. */
  function LaneBlocks<T>(s: seq<T>, offset: nat, n: nat): (t: seq<T>)
    requires offset <= 16 && CRC_SKIP * n <= |s|
    ensures |t| == 8 * n
  {
    if n == 0 then []
    else LaneBlocks(s, offset, n - 1) + s[CRC_SKIP * (n - 1) + offset..CRC_SKIP * (n - 1) + offset + 8]
  }

  /** A lane over `n` blocks of 24 octets, with what is left over at the end of the buffer in the third one. */
  function Lane<T>(s: seq<T>, offset: nat, n: nat): seq<T>
    requires offset <= 16 && CRC_SKIP * n <= |s|
  {
    LaneBlocks(s, offset, n) + if offset == 16 then s[CRC_SKIP * n..] else []
  }

  predicate LaneOffset(offset: nat) {
    offset == 0 || offset == 8 || offset == 16
  }

  predicate LaneSize(size: nat) {
    size % 8 == 0 && size >= CRC_SKIP
  }

  lemma SliceSnoc<T>(fed: seq<T>, s: seq<T>, a: nat, b: nat)
    requires a <= b < |s|
    ensures (fed + s[a..b]) + [s[b]] == fed + s[a..b + 1]
  {
  }

  lemma SliceJoin<T>(fed: seq<T>, s: seq<T>, a: nat, b: nat, c: nat)
    requires a <= b <= c <= |s|
    ensures (fed + s[a..b]) + s[b..c] == fed + s[a..c]
  {
  }

  lemma SliceEmpty<T>(fed: seq<T>, s: seq<T>, a: nat)
    requires a <= |s|
    ensures fed + s[a..a] == fed
  {
  }

  lemma SliceAll<T>(fed: seq<T>, s: seq<T>, a: nat, b: nat)
    requires a <= b == |s|
    ensures fed + s[a..b] == fed + s[a..]
    ensures a == 0 ==> s[..b] == s
  {
  }

  /** Feeds octets `from .. to-1`, after the octets of `fed`. */
  method FeedRange(crc: bv32, buffer: seq<bv8>, from: nat, to: nat, ghost fed: seq<bv8>)
    returns (r: bv32, ghost done: seq<bv8>)
    requires from <= to <= |buffer| && Reached(crc, fed)
    ensures Reached(r, done) && done == fed + buffer[from..to]
  {
    r, done := crc, fed;
    SliceEmpty(fed, buffer, from);
    for j := from to to
      invariant Reached(r, done)
      invariant done == fed + buffer[from..j]
    {
      SliceSnoc(fed, buffer, from, j);
      r := FeedOctet(r, buffer[j], done);
      done := done + [buffer[j]];
    }
  }

  /** The CRC-32C of one lane of a buffer. */
  method ComputeCrc32cOffset(buffer: seq<bv8>, offset: nat) returns (status: Status, crc32: bv32)
    ensures status == if LaneSize(|buffer|) && LaneOffset(offset) then Success else InvalidParams
    ensures status == Success ==> crc32 == Crc32c(Lane(buffer, offset, |buffer| / CRC_SKIP))
  {
    crc32 := 0;
    if |buffer| == 0 || |buffer| % 8 != 0 || |buffer| < CRC_SKIP {
      return InvalidParams, crc32;
    }
    if offset != 0 && offset != 8 && offset != 16 {
      return InvalidParams, crc32;
    }
    var nBlocks := |buffer| / CRC_SKIP;
    ghost var rest := WholeWords(|buffer|);
    var crc := FeedLane(buffer, offset, nBlocks, rest);
    LastStep(crc, Lane(buffer, offset, nBlocks));
    return Success, ReverseBits(!crc);
  }

  lemma LastStep(crc: bv32, s: seq<bv8>)
    requires Reached(crc, s)
    ensures ReverseBits(!crc) == Crc32c(s)
  {
    ReachedState(crc, s);
  }

  lemma WholeWords(size: nat) returns (rest: nat)
    requires size % 8 == 0
    ensures size == CRC_SKIP * (size / CRC_SKIP) + 8 * rest
  {
    rest := size / 8 - 3 * (size / CRC_SKIP);
  }

  method FeedLane(buffer: seq<bv8>, offset: nat, nBlocks: nat, ghost rest: nat) returns (crc: bv32)
    requires offset <= 16 && |buffer| == CRC_SKIP * nBlocks + 8 * rest
    ensures Reached(crc, Lane(buffer, offset, nBlocks))
  {
    crc := INITIAL_POLY;
    ghost var done := [];
    ReachedStart();
    for i := 0 to nBlocks
      invariant Reached(crc, done)
      invariant done == LaneBlocks(buffer, offset, i)
    {
      var start := i * CRC_SKIP + offset;
      crc, done := FeedRange(crc, buffer, start, start + 8, done);
    }
    var start := nBlocks * CRC_SKIP;
    var remainder := |buffer| - start;
    if remainder != 0 && offset == 16 {
      crc, done := FeedRemainder(crc, buffer, start, rest, done);
    }
    assert done == Lane(buffer, offset, nBlocks);
  }

  method FeedRemainder(crc: bv32, buffer: seq<bv8>, start: nat, ghost rest: nat, ghost fed: seq<bv8>)
    returns (r: bv32, ghost done: seq<bv8>)
    requires |buffer| == start + 8 * rest && Reached(crc, fed)
    ensures Reached(r, done) && done == fed + buffer[start..]
  {
    r, done := crc, fed;
    SliceEmpty(fed, buffer, start);
    var i := start;
    ghost var k := 0;
    while i < |buffer|
      invariant i == start + 8 * k && k <= rest
      invariant Reached(r, done)
      invariant done == fed + buffer[start..i]
    {
      SliceJoin(fed, buffer, start, i, i + 8);
      r, done := FeedRange(r, buffer, i, i + 8, done);
      i := i + 8;
      k := k + 1;
    }
    SliceAll(fed, buffer, start, i);
  }

  /** The octets of a 32-bit word in memory. */
  function WordOctets(x: bv32): seq<bv8> {
    [(x & 0xFF) as bv8, ((x >> 8) & 0xFF) as bv8, ((x >> 16) & 0xFF) as bv8, (x >> 24) as bv8]
  }

  function Join(high: bv32, low: bv32): bv64 {
    ((high as bv64) << 32) | (low as bv64)
  }

  function Sum3(a: bv32, b: bv32, c: bv32): bv32 {
    a ^ b ^ c
  }

  /** The three lanes joined by exclusive or, above the CRC of the three together. */
  function Combine(c0: bv32, c1: bv32, c2: bv32): bv64 {
    Join(Sum3(c0, c1, c2), Crc32c(WordOctets(c0) + WordOctets(c1) + WordOctets(c2)))
  }

  /** The 64-bit checksum. */
  function Crc64(s: seq<bv8>): bv64 {
    var n := |s| / CRC_SKIP;
    Combine(Crc32c(Lane(s, 0, n)), Crc32c(Lane(s, 8, n)), Crc32c(Lane(s, 16, n)))
  }

  lemma LowHalf(high: bv32, low: bv32)
    ensures (((high as bv64) << 32) | (low as bv64)) & 0xFFFF_FFFF == low as bv64
  {
  }

  lemma HighHalf(high: bv32, low: bv32)
    ensures (((high as bv64) << 32) | (low as bv64)) >> 32 == high as bv64
  {
  }

  lemma FromOctets(x: bv32)
    ensures x == (((x & 0xFF) as bv8) as bv32) | (((((x >> 8) & 0xFF) as bv8) as bv32) << 8)
                 | (((((x >> 16) & 0xFF) as bv8) as bv32) << 16) | ((((x >> 24) as bv8) as bv32) << 24)
  {
  }

  /** The 32-bit word in memory, the least significant octet first. */
  function WordOf(s: seq<bv8>, i: nat): bv32
    requires i + 4 <= |s|
  {
    (s[i] as bv32) | ((s[i + 1] as bv32) << 8) | ((s[i + 2] as bv32) << 16) | ((s[i + 3] as bv32) << 24)
  }

  lemma WordRestored(x: bv32)
    ensures WordOf(WordOctets(x), 0) == x
  {
    FromOctets(x);
  }

  /** Twelve octets that hold three words. */
  predicate ThreeWords(o: seq<bv8>, c0: bv32, c1: bv32, c2: bv32) {
    |o| == 12 && WordOf(o, 0) == c0 && WordOf(o, 4) == c1 && WordOf(o, 8) == c2
  }

  /** The two halves of the sum for three lane sums: their exclusive or on top, and below it the checksum of the twelve
      octets that hold them. */
  ghost predicate HalvesAre(sum: bv64, c0: bv32, c1: bv32, c2: bv32) {
    exists o :: ThreeWords(o, c0, c1, c2) && Halves(sum, c0 ^ c1 ^ c2, Crc32c(o))
  }

  predicate Halves(sum: bv64, high: bv32, low: bv32) {
    sum >> 32 == high as bv64 && sum & 0xFFFF_FFFF == low as bv64
  }

  /** The same octets make the same word. */
  lemma SameWord(s: seq<bv8>, i: nat, w: seq<bv8>, x: bv32)
    requires |w| == 4 && i + 4 <= |s| && s[i..i + 4] == w && WordOf(w, 0) == x
    ensures WordOf(s, i) == x
  {
    assert s[i] == w[0] && s[i + 1] == w[1] && s[i + 2] == w[2] && s[i + 3] == w[3];
  }

  lemma JoinedWords(o: seq<bv8>, w0: seq<bv8>, w1: seq<bv8>, w2: seq<bv8>, c0: bv32, c1: bv32, c2: bv32)
    requires |w0| == |w1| == |w2| == 4 && o == w0 + w1 + w2
    requires WordOf(w0, 0) == c0 && WordOf(w1, 0) == c1 && WordOf(w2, 0) == c2
    ensures ThreeWords(o, c0, c1, c2)
  {
    assert o[0..4] == w0 && o[4..8] == w1 && o[8..12] == w2;
    SameWord(o, 0, w0, c0);
    SameWord(o, 4, w1, c1);
    SameWord(o, 8, w2, c2);
  }

  lemma TwelveOctets(c0: bv32, c1: bv32, c2: bv32) returns (o: seq<bv8>)
    ensures o == WordOctets(c0) + WordOctets(c1) + WordOctets(c2) && ThreeWords(o, c0, c1, c2)
  {
    o := WordOctets(c0) + WordOctets(c1) + WordOctets(c2);
    WordRestored(c0);
    WordRestored(c1);
    WordRestored(c2);
    JoinedWords(o, WordOctets(c0), WordOctets(c1), WordOctets(c2), c0, c1, c2);
  }

  lemma JoinHalves(high: bv32, low: bv32)
    ensures Halves(Join(high, low), high, low)
  {
    LowHalf(high, low);
    HighHalf(high, low);
  }

  lemma CombineHalves(c0: bv32, c1: bv32, c2: bv32)
    ensures HalvesAre(Combine(c0, c1, c2), c0, c1, c2)
  {
    var o := TwelveOctets(c0, c1, c2);
    JoinHalves(c0 ^ c1 ^ c2, Crc32c(o));
    assert Halves(Combine(c0, c1, c2), c0 ^ c1 ^ c2, Crc32c(o));
  }

  method ComputeCrc64(buffer: seq<bv8>) returns (status: Status, crc64: bv64)
    ensures status == if LaneSize(|buffer|) then Success else InvalidParams
    ensures status == Success ==> crc64 == Crc64(buffer)
    ensures status == Success ==>
      var n := |buffer| / 24;
      HalvesAre(crc64, Crc32c(Lane(buffer, 0, n)), Crc32c(Lane(buffer, 8, n)), Crc32c(Lane(buffer, 16, n)))
  {
    crc64 := 0;
    if |buffer| == 0 {
      return InvalidParams, crc64;
    }
    var crc0, crc1, crc2, crc32;
    status, crc0 := ComputeCrc32cOffset(buffer, 0);
    if status != Success {
      return;
    }
    status, crc1 := ComputeCrc32cOffset(buffer, 8);
    if status != Success {
      return;
    }
    status, crc2 := ComputeCrc32cOffset(buffer, 16);
    if status != Success {
      return;
    }
    status, crc32 := ComputeCrc32c(WordOctets(crc0) + WordOctets(crc1) + WordOctets(crc2));
    if status != Success {
      return;
    }
    crc64 := Join(Sum3(crc0, crc1, crc2), crc32);
    CombineHalves(crc0, crc1, crc2);
  }
}
