/** The three lanes share out the buffer, and what the combined 64-bit checksum detects. */
module CrcLanes {
  import opened Crc
  import CD = CrcDetection
  import CR = CrcReflected
  import SR = ShiftRegister

  lemma {:induction false} BitsAt(s: seq<bv8>, i: nat, j: nat)
    requires i < |s| && j < 8
    ensures Bits(s)[8 * i + j] == OctetBits(s[i])[j]
    decreases |s|
  {
    if i + 1 < |s| {
      BitsAt(s[..|s| - 1], i, j);
    }
  }

  /** The strings differ, and only within four consecutive octets. */
  ghost predicate FourOctets(s: seq<bv8>, t: seq<bv8>, at: nat) {
    |s| == |t| && s != t && forall k :: 0 <= k < |s| && s[k] != t[k] ==> at <= k < at + 4
  }

  lemma FourOctetsAreBurst(s: seq<bv8>, t: seq<bv8>, at: nat)
    requires FourOctets(s, t, at)
    ensures SR.Burst(Bits(s), Bits(t), 8 * at)
  {
    forall k: nat | k < 8 * |s| && Bits(s)[k] != Bits(t)[k]
      ensures 8 * at <= k < 8 * at + 32
    {
      BitsInside(s, t, at, k / 8, k % 8, k);
    }
    BitsDiffer(s, t);
  }

  lemma BitsInside(s: seq<bv8>, t: seq<bv8>, at: nat, i: nat, j: nat, k: nat)
    requires FourOctets(s, t, at) && i < |s| && j < 8 && k == 8 * i + j && Bits(s)[k] != Bits(t)[k]
    ensures 8 * at <= k < 8 * at + 32
  {
    BitsAt(s, i, j);
    BitsAt(t, i, j);
  }

  lemma BitsDiffer(s: seq<bv8>, t: seq<bv8>)
    requires |s| == |t| && s != t
    ensures Bits(s) != Bits(t)
  {
    var i :| 0 <= i < |s| && s[i] != t[i];
    if Bits(s) == Bits(t) {
      SameOctet(s, t, i);
      assert false;
    }
  }

  lemma SameOctet(s: seq<bv8>, t: seq<bv8>, i: nat)
    requires |s| == |t| && i < |s| && Bits(s) == Bits(t)
    ensures s[i] == t[i]
  {
    forall j: nat | j < 8
      ensures OctetBits(s[i])[j] == OctetBits(t[i])[j]
    {
      BitsAt(s, i, j);
      BitsAt(t, i, j);
    }
    assert OctetBits(s[i]) == OctetBits(t[i]);
    CR.OctetBitsInjective(s[i], t[i]);
  }

  /** A change within four consecutive octets changes the plain checksum. */
  lemma FourOctetsChangeCrc(s: seq<bv8>, t: seq<bv8>, at: nat)
    requires FourOctets(s, t, at)
    ensures Crc32c(s) != Crc32c(t)
  {
    FourOctetsAreBurst(s, t, at);
    CD.BurstChangesCrc(s, t, 8 * at);
  }

  /** Where an octet of the buffer is found: the lane, and the position in it. */
  datatype Home = Home(offset: nat, pos: nat)

  function HomeOf(n: nat, i: nat): (h: Home)
    ensures LaneOffset(h.offset)
  {
    if i < CRC_SKIP * n then Home(i % CRC_SKIP / 8 * 8, i / CRC_SKIP * 8 + i % 8) else Home(16, i - 16 * n)
  }

  /** The octet of the buffer at a position of a lane. */
  function Origin(n: nat, h: Home): nat
    requires LaneOffset(h.offset)
  {
    if h.pos < 8 * n then CRC_SKIP * (h.pos / 8) + h.offset + h.pos % 8 else h.pos + 16 * n
  }

  function LaneLength(size: nat, n: nat, offset: nat): nat
    requires CRC_SKIP * n <= size
  {
    8 * n + if offset == 16 then size - CRC_SKIP * n else 0
  }

  lemma {:induction false} LaneBlocksAt<T>(s: seq<T>, offset: nat, n: nat, p: nat)
    requires LaneOffset(offset) && CRC_SKIP * n <= |s| && p < 8 * n
    ensures LaneBlocks(s, offset, n)[p] == s[CRC_SKIP * (p / 8) + offset + p % 8]
  {
    if p < 8 * (n - 1) {
      LaneBlocksAt(s, offset, n - 1, p);
    } else {
      assert p / 8 == n - 1;
    }
  }

  lemma LaneAt<T>(s: seq<T>, offset: nat, n: nat, p: nat)
    requires LaneOffset(offset) && CRC_SKIP * n <= |s| && p < LaneLength(|s|, n, offset)
    ensures |Lane(s, offset, n)| == LaneLength(|s|, n, offset)
    ensures Origin(n, Home(offset, p)) < |s|
    ensures Lane(s, offset, n)[p] == s[Origin(n, Home(offset, p))]
  {
    if p < 8 * n {
      LaneBlocksAt(s, offset, n, p);
    }
  }

  /** The lanes share out the buffer: every octet is in exactly one place of one lane. */
  lemma LanesPartition(size: nat, n: nat, i: nat, h: Home)
    requires CRC_SKIP * n <= size && LaneOffset(h.offset)
    ensures i < size ==> HomeOf(n, i).pos < LaneLength(size, n, HomeOf(n, i).offset) && Origin(n, HomeOf(n, i)) == i
    ensures h.pos < LaneLength(size, n, h.offset) ==> Origin(n, h) < size && HomeOf(n, Origin(n, h)) == h
  {
    if i < CRC_SKIP * n {
      HomeParts(n, i);
    }
    if h.pos < 8 * n {
      OriginParts(n, h);
    }
  }

  lemma HomeParts(n: nat, i: nat)
    requires i < CRC_SKIP * n
    ensures HomeOf(n, i).pos < 8 * n && Origin(n, HomeOf(n, i)) == i
  {
    var q, r := i / CRC_SKIP, i % CRC_SKIP;
    var k, j := r / 8, r % 8;
    assert i == 8 * (3 * q + k) + j;
    assert i % 8 == j;
    assert (8 * q + j) / 8 == q && (8 * q + j) % 8 == j;
  }

  lemma OriginParts(n: nat, h: Home)
    requires h.pos < 8 * n && LaneOffset(h.offset)
    ensures Origin(n, h) < CRC_SKIP * n && HomeOf(n, Origin(n, h)) == h
  {
    var q, j := h.pos / 8, h.pos % 8;
    assert h.pos == 8 * q + j && q < n;
    BlockParts(q, h.offset, j);
  }

  lemma BlockParts(q: nat, offset: nat, j: nat)
    requires LaneOffset(offset) && j < 8
    ensures (CRC_SKIP * q + offset + j) / CRC_SKIP == q && (CRC_SKIP * q + offset + j) % CRC_SKIP == offset + j
    ensures (offset + j) / 8 * 8 == offset && (CRC_SKIP * q + offset + j) % 8 == j
  {
    var i := CRC_SKIP * q + (offset + j);
    assert i / CRC_SKIP == q && i % CRC_SKIP == offset + j;
    assert i == 8 * (3 * q + offset / 8) + j;
  }

  /** The strings differ, and only within four consecutive octets of one aligned 8-octet word. */
  ghost predicate WordChange(s: seq<bv8>, t: seq<bv8>, at: nat) {
    FourOctets(s, t, at) && at % 8 <= 4
  }

  /** The octets of one aligned word stay together in their lane. */
  lemma WordStaysTogether(n: nat, at: nat, i: nat)
    requires at % 8 <= 4 && at <= i < at + 4
    ensures HomeOf(n, i) == Home(HomeOf(n, at).offset, HomeOf(n, at).pos + (i - at))
  {
    var w, j, d := at / 8, at % 8, i - at;
    assert at == 8 * w + j;
    var q, k := w / 3, w % 3;
    assert w == 3 * q + k;
    BlockParts(q, 8 * k, j);
    BlockParts(q, 8 * k, j + d);
    assert at == CRC_SKIP * q + 8 * k + j && i == CRC_SKIP * q + 8 * k + (j + d);
    assert at < CRC_SKIP * n <==> q < n;
    assert i < CRC_SKIP * n <==> q < n;
  }

  /** A lane that does not hold the changed word is unchanged. */
  lemma OtherLaneSame(s: seq<bv8>, t: seq<bv8>, at: nat, n: nat, offset: nat)
    requires WordChange(s, t, at) && CRC_SKIP * n <= |s| && LaneOffset(offset) && offset != HomeOf(n, at).offset
    ensures Lane(s, offset, n) == Lane(t, offset, n)
  {
    var a, b := Lane(s, offset, n), Lane(t, offset, n);
    forall p: nat | p < LaneLength(|s|, n, offset)
      ensures p < |a| && p < |b| && a[p] == b[p]
    {
      LaneAt(s, offset, n, p);
      LaneAt(t, offset, n, p);
      var i := Origin(n, Home(offset, p));
      LanesPartition(|s|, n, i, Home(offset, p));
      if at <= i < at + 4 {
        WordStaysTogether(n, at, i);
      }
    }
    assert |a| == |b| == LaneLength(|s|, n, offset);
  }

  /** The lane that holds the changed word is changed in four consecutive octets. */
  lemma OwnLaneChanged(s: seq<bv8>, t: seq<bv8>, at: nat, n: nat)
    requires WordChange(s, t, at) && CRC_SKIP * n <= |s|
    ensures FourOctets(Lane(s, HomeOf(n, at).offset, n), Lane(t, HomeOf(n, at).offset, n), HomeOf(n, at).pos)
  {
    var h := HomeOf(n, at);
    var a, b := Lane(s, h.offset, n), Lane(t, h.offset, n);
    assert |a| == |b| == LaneLength(|s|, n, h.offset);
    forall p: nat | p < |a| && a[p] != b[p]
      ensures h.pos <= p < h.pos + 4
    {
      LaneAt(s, h.offset, n, p);
      LaneAt(t, h.offset, n, p);
      var i := Origin(n, Home(h.offset, p));
      LanesPartition(|s|, n, i, Home(h.offset, p));
      WordStaysTogether(n, at, i);
    }
    var i :| 0 <= i < |s| && s[i] != t[i];
    WordStaysTogether(n, at, i);
    LanesPartition(|s|, n, i, h);
    LaneAt(s, h.offset, n, HomeOf(n, i).pos);
    LaneAt(t, h.offset, n, HomeOf(n, i).pos);
  }

  function Upper(j: bv64): bv32 {
    ((j >> 32) & 0xFFFF_FFFF) as bv32
  }

  /** The upper half of the 64-bit checksum alone tells the lanes' sums apart. */
  lemma UpperOfJoin(high: bv32, low: bv32)
    ensures Upper(Join(high, low)) == high
  {
  }

  lemma SumTells0(a: bv32, b: bv32, c: bv32)
    ensures Sum3(a, b, c) ^ Sum3(0, b, c) == a
  {
  }

  lemma SumTells1(a: bv32, b: bv32, c: bv32)
    ensures Sum3(a, b, c) ^ Sum3(a, 0, c) == b
  {
  }

  lemma SumTells2(a: bv32, b: bv32, c: bv32)
    ensures Sum3(a, b, c) ^ Sum3(a, b, 0) == c
  {
  }

  /** A change of one lane's sum changes the combination. */
  lemma CombineTells0(a: bv32, d: bv32, b: bv32, c: bv32)
    requires a != d
    ensures Combine(a, b, c) != Combine(d, b, c)
  {
    UpperOfJoin(Sum3(a, b, c), Crc32c(WordOctets(a) + WordOctets(b) + WordOctets(c)));
    UpperOfJoin(Sum3(d, b, c), Crc32c(WordOctets(d) + WordOctets(b) + WordOctets(c)));
    SumTells0(a, b, c);
    SumTells0(d, b, c);
  }

  lemma CombineTells1(a: bv32, b: bv32, d: bv32, c: bv32)
    requires b != d
    ensures Combine(a, b, c) != Combine(a, d, c)
  {
    UpperOfJoin(Sum3(a, b, c), Crc32c(WordOctets(a) + WordOctets(b) + WordOctets(c)));
    UpperOfJoin(Sum3(a, d, c), Crc32c(WordOctets(a) + WordOctets(d) + WordOctets(c)));
    SumTells1(a, b, c);
    SumTells1(a, d, c);
  }

  lemma CombineTells2(a: bv32, b: bv32, c: bv32, d: bv32)
    requires c != d
    ensures Combine(a, b, c) != Combine(a, b, d)
  {
    UpperOfJoin(Sum3(a, b, c), Crc32c(WordOctets(a) + WordOctets(b) + WordOctets(c)));
    UpperOfJoin(Sum3(a, b, d), Crc32c(WordOctets(a) + WordOctets(b) + WordOctets(d)));
    SumTells2(a, b, c);
    SumTells2(a, b, d);
  }

  lemma LanesTell(s: seq<bv8>, t: seq<bv8>, n: nat, own: nat)
    requires LaneOffset(own) && |s| == |t| && n == |s| / CRC_SKIP
    requires Crc32c(Lane(s, own, n)) != Crc32c(Lane(t, own, n))
    requires own != 0 ==> Lane(s, 0, n) == Lane(t, 0, n)
    requires own != 8 ==> Lane(s, 8, n) == Lane(t, 8, n)
    requires own != 16 ==> Lane(s, 16, n) == Lane(t, 16, n)
    ensures Crc64(s) != Crc64(t)
  {
    var a, b, c := Crc32c(Lane(s, 0, n)), Crc32c(Lane(s, 8, n)), Crc32c(Lane(s, 16, n));
    if own == 0 {
      CombineTells0(a, Crc32c(Lane(t, 0, n)), b, c);
    } else if own == 8 {
      CombineTells1(a, b, Crc32c(Lane(t, 8, n)), c);
    } else {
      CombineTells2(a, b, c, Crc32c(Lane(t, 16, n)));
    }
  }

  /** Any change of a buffer within four consecutive octets of one aligned 8-octet word changes the 64-bit
      checksum. */
  lemma WordChangeDetected(s: seq<bv8>, t: seq<bv8>, at: nat)
    requires WordChange(s, t, at)
    ensures Crc64(s) != Crc64(t)
  {
    var n := |s| / CRC_SKIP;
    var own := HomeOf(n, at).offset;
    OwnLaneChanged(s, t, at, n);
    FourOctetsChangeCrc(Lane(s, own, n), Lane(t, own, n), HomeOf(n, at).pos);
    if own != 0 {
      OtherLaneSame(s, t, at, n, 0);
    }
    if own != 8 {
      OtherLaneSame(s, t, at, n, 8);
    }
    if own != 16 {
      OtherLaneSame(s, t, at, n, 16);
    }
    LanesTell(s, t, n, own);
  }
}
