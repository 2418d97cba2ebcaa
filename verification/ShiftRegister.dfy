/** The theory of a linear shift register that takes in one message bit per turn: it cannot forget a difference
    of up to 32 consecutive bits. */
module ShiftRegister {
  /** The register's words: their sum, the polynomial, the inverse of one turn, the word with only its top bit set,
      whether that bit is set, halving and doubling, and whether the `n` lowest bits of a word are clear. */
  datatype Ops<!W> = Ops(add: (W, W) -> W, zero: W, poly: W, back: W -> W, top: W, isTop: W -> bool,
                         half: W -> W, double: W -> W, low: (W, nat) -> bool)

  /** One turn of the register. */
  function Shift<W>(r: Ops<W>, c: W): W {
    if r.isTop(c) then r.add(r.double(c), r.poly) else r.double(c)
  }

  ghost predicate Associative<W(!new)>(r: Ops<W>) {
    forall a, b, c :: r.add(r.add(a, b), c) == r.add(a, r.add(b, c))
  }

  ghost predicate Zero<W(!new)>(r: Ops<W>) {
    forall a :: r.add(a, r.zero) == a
  }

  ghost predicate Cancels<W(!new)>(r: Ops<W>) {
    && (forall a, b :: r.add(a, r.add(a, b)) == b)
    && (forall a, b :: r.add(r.add(b, a), a) == b)
  }

  ghost predicate Injective<W(!new)>(r: Ops<W>) {
    forall a :: r.back(Shift(r, a)) == a
  }

  function First<W>(r: Ops<W>, bit: bool): W {
    if bit then r.top else r.zero
  }

  /** Halving makes room at the top. */
  ghost predicate Halving<W(!new)>(r: Ops<W>) {
    && (forall n: nat :: n <= 32 ==> r.low(r.zero, n))
    && (forall x, n: nat, bit :: 0 < n <= 32 && r.low(x, n) ==> r.low(r.add(First(r, bit), r.half(x)), n - 1))
  }

  ghost predicate HalvesAdd<W(!new)>(r: Ops<W>) {
    && (forall a, x :: r.low(x, 1) ==> r.isTop(r.add(a, r.half(x))) == r.isTop(a))
    && (forall a, x :: r.low(x, 1) ==> r.double(r.add(a, r.half(x))) == r.add(r.double(a), x))
  }

  ghost predicate Commutes<W(!new)>(r: Ops<W>) {
    forall a, b :: r.add(a, b) == r.add(b, a)
  }

  lemma TurnsBack<W(!new)>(r: Ops<W>, a: W, x: W)
    requires HalvesAdd(r) && Associative(r) && Commutes(r) && r.low(x, 1)
    ensures Shift(r, r.add(a, r.half(x))) == r.add(Shift(r, a), x)
  {
    assert r.double(r.add(a, r.half(x))) == r.add(r.double(a), x);
    SwapLast(r, r.double(a), x, r.poly);
  }

  lemma SwapLast<W(!new)>(r: Ops<W>, a: W, b: W, c: W)
    requires Associative(r) && Commutes(r)
    ensures r.add(r.add(a, b), c) == r.add(r.add(a, c), b)
  {
    assert r.add(r.add(a, b), c) == r.add(a, r.add(b, c));
    assert r.add(b, c) == r.add(c, b);
  }

  /** A word is its top bit and the rest. */
  ghost predicate Parts<W(!new)>(r: Ops<W>) {
    && (forall x, p :: r.low(x, 1) ==> r.isTop(r.add(First(r, p), r.half(x))) == p)
    && (forall x, p :: r.low(x, 1) ==> r.double(r.add(First(r, p), r.half(x))) == x)
  }

  ghost predicate LowIsEven<W(!new)>(r: Ops<W>) {
    forall x, n: nat :: 0 < n <= 32 && r.low(x, n) ==> r.low(x, 1)
  }

  function FeedBit<W>(r: Ops<W>, c: W, bit: bool): W {
    Shift(r, r.add(c, First(r, bit)))
  }

  function Feed<W>(r: Ops<W>, c: W, bits: seq<bool>): W
    decreases |bits|
  {
    if bits == [] then c else Feed(r, FeedBit(r, c, bits[0]), bits[1..])
  }

  function Turns<W>(r: Ops<W>, c: W, n: nat): W
    decreases n
  {
    if n == 0 then c else Turns(r, Shift(r, c), n - 1)
  }

  /** Up to 32 message bits, packed from the top of a word. */
  function Packed<W>(r: Ops<W>, bits: seq<bool>): W
    decreases |bits|
  {
    if bits == [] then r.zero else r.add(First(r, bits[0]), r.half(Packed(r, bits[1..])))
  }

  lemma {:induction false} FeedConcat<W>(r: Ops<W>, c: W, a: seq<bool>, b: seq<bool>)
    ensures Feed(r, c, a + b) == Feed(r, Feed(r, c, a), b)
    decreases |a|
  {
    if a == [] {
      assert a + b == b;
    } else {
      assert (a + b)[0] == a[0] && (a + b)[1..] == a[1..] + b;
      FeedConcat(r, FeedBit(r, c, a[0]), a[1..], b);
    }
  }

  lemma CancelLeft<W(!new)>(r: Ops<W>, a: W, b: W, c: W)
    requires Cancels(r) && r.add(a, b) == r.add(a, c)
    ensures b == c
  {
    assert r.add(a, r.add(a, b)) == b;
  }

  lemma FeedBitInjective<W(!new)>(r: Ops<W>, a: W, b: W, bit: bool)
    requires Cancels(r) && Injective(r) && FeedBit(r, a, bit) == FeedBit(r, b, bit)
    ensures a == b
  {
    var u := First(r, bit);
    assert r.back(Shift(r, r.add(a, u))) == r.add(a, u) && r.back(Shift(r, r.add(b, u))) == r.add(b, u);
    assert r.add(r.add(a, u), u) == a && r.add(r.add(b, u), u) == b;
  }

  /** Equal bits keep different registers apart. */
  lemma {:induction false} FeedInjective<W(!new)>(r: Ops<W>, a: W, b: W, bits: seq<bool>)
    requires Cancels(r) && Injective(r) && Feed(r, a, bits) == Feed(r, b, bits)
    ensures a == b
    decreases |bits|
  {
    if bits != [] {
      FeedInjective(r, FeedBit(r, a, bits[0]), FeedBit(r, b, bits[0]), bits[1..]);
      FeedBitInjective(r, a, b, bits[0]);
    }
  }

  lemma {:induction false} TurnsInjective<W(!new)>(r: Ops<W>, a: W, b: W, n: nat)
    requires Injective(r) && Turns(r, a, n) == Turns(r, b, n)
    ensures a == b
    decreases n
  {
    if n > 0 {
      TurnsInjective(r, Shift(r, a), Shift(r, b), n - 1);
      assert r.back(Shift(r, a)) == a && r.back(Shift(r, b)) == b;
    }
  }

  lemma {:induction false} PackedLow<W(!new)>(r: Ops<W>, bits: seq<bool>)
    requires Halving(r) && |bits| <= 32
    ensures r.low(Packed(r, bits), 32 - |bits|)
    decreases |bits|
  {
    if bits != [] {
      PackedLow(r, bits[1..]);
    }
  }

  /** Adding a half and then turning is turning and then adding the whole. */
  ghost predicate SumsTurn<W(!new)>(r: Ops<W>) {
    forall c, first, rest {:trigger r.add(c, r.add(first, r.half(rest)))} :: r.low(rest, 1) ==>
      r.add(Shift(r, r.add(c, first)), rest) == Shift(r, r.add(c, r.add(first, r.half(rest))))
  }

  lemma SumsTurnHolds<W(!new)>(r: Ops<W>)
    requires Associative(r) && Commutes(r) && HalvesAdd(r)
    ensures SumsTurn(r)
  {
    forall c, first, rest | r.low(rest, 1)
      ensures r.add(Shift(r, r.add(c, first)), rest) == Shift(r, r.add(c, r.add(first, r.half(rest))))
    {
      TurnSum(r, c, first, rest);
    }
  }

  lemma TurnSum<W(!new)>(r: Ops<W>, c: W, first: W, rest: W)
    requires Associative(r) && Commutes(r) && HalvesAdd(r) && r.low(rest, 1)
    ensures r.add(Shift(r, r.add(c, first)), rest) == Shift(r, r.add(c, r.add(first, r.half(rest))))
  {
    TurnsBack(r, r.add(c, first), rest);
    assert r.add(r.add(c, first), r.half(rest)) == r.add(c, r.add(first, r.half(rest)));
  }

  /** Feeding up to 32 bits is adding their packed form and turning the register. */
  lemma {:induction false} FeedIsTurns<W(!new)>(r: Ops<W>, c: W, bits: seq<bool>)
    requires Zero(r) && SumsTurn(r) && Halving(r) && LowIsEven(r) && |bits| <= 32
    ensures Feed(r, c, bits) == Turns(r, r.add(c, Packed(r, bits)), |bits|)
    decreases |bits|
  {
    if bits != [] {
      var first, rest := First(r, bits[0]), Packed(r, bits[1..]);
      FeedIsTurns(r, FeedBit(r, c, bits[0]), bits[1..]);
      PackedLow(r, bits[1..]);
      assert r.low(rest, 1);
    }
  }

  lemma {:induction false} PackedInjective<W(!new)>(r: Ops<W>, x: seq<bool>, y: seq<bool>)
    requires Halving(r) && LowIsEven(r) && Parts(r) && |x| == |y| <= 32 && Packed(r, x) == Packed(r, y)
    ensures x == y
    decreases |x|
  {
    if x != [] {
      PackedLow(r, x[1..]);
      PackedLow(r, y[1..]);
      assert Packed(r, x[1..]) == Packed(r, y[1..]) && x[0] == y[0];
      PackedInjective(r, x[1..], y[1..]);
      assert x == [x[0]] + x[1..] && y == [y[0]] + y[1..];
    }
  }

  ghost predicate Lawful<W(!new)>(r: Ops<W>) {
    && Associative(r) && Zero(r) && Commutes(r) && Cancels(r) && Injective(r)
    && Halving(r) && LowIsEven(r) && HalvesAdd(r) && Parts(r)
  }

  lemma WindowDecides<W(!new)>(r: Ops<W>, s: W, x: seq<bool>, y: seq<bool>)
    requires Lawful(r) && |x| == |y| <= 32 && Feed(r, s, x) == Feed(r, s, y)
    ensures x == y
  {
    SumsTurnHolds(r);
    FeedIsTurns(r, s, x);
    FeedIsTurns(r, s, y);
    TurnsInjective(r, r.add(s, Packed(r, x)), r.add(s, Packed(r, y)), |x|);
    CancelLeft(r, s, Packed(r, x), Packed(r, y));
    PackedInjective(r, x, y);
  }

  /** The differences of two messages all lie within 32 consecutive bits. */
  ghost predicate Burst(a: seq<bool>, b: seq<bool>, at: nat) {
    |a| == |b| && a != b && forall k :: 0 <= k < |a| && a[k] != b[k] ==> at <= k < at + 32
  }

  /** A burst leaves the registers different, whatever surrounds it. */
  lemma BurstLeavesTrace<W(!new)>(r: Ops<W>, c: W, a: seq<bool>, b: seq<bool>, at: nat)
    requires Lawful(r) && Burst(a, b, at)
    ensures Feed(r, c, a) != Feed(r, c, b)
  {
    var pre, x, y, post := BurstParts(a, b, at);
    var s := Feed(r, c, pre);
    FeedConcat(r, c, pre, x + post);
    FeedConcat(r, c, pre, y + post);
    FeedConcat(r, s, x, post);
    FeedConcat(r, s, y, post);
    if Feed(r, c, a) == Feed(r, c, b) {
      FeedInjective(r, Feed(r, s, x), Feed(r, s, y), post);
      WindowDecides(r, s, x, y);
      assert false;
    }
  }

  lemma BurstParts(a: seq<bool>, b: seq<bool>, at: nat)
    returns (pre: seq<bool>, x: seq<bool>, y: seq<bool>, post: seq<bool>)
    requires Burst(a, b, at)
    ensures a == pre + (x + post) && b == pre + (y + post) && |x| == |y| <= 32 && x != y
  {
    var lo := if at <= |a| then at else |a|;
    var hi := if at + 32 <= |a| then at + 32 else |a|;
    pre, x, y, post := a[..lo], a[lo..hi], b[lo..hi], a[hi..];
    ThreeParts(a, lo, hi);
    ThreeParts(b, lo, hi);
    assert a[..lo] == b[..lo];
    assert a[hi..] == b[hi..];
  }

  lemma ThreeParts<T>(s: seq<T>, lo: nat, hi: nat)
    requires lo <= hi <= |s|
    ensures s == s[..lo] + (s[lo..hi] + s[hi..])
  {
  }
}
