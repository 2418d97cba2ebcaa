/** Packing between 32-bit words and 28-bit limbs: seven words make eight limbs. */
module BnOctets {
  import opened Word
  import opened Limbs
  import opened BigNum
  import opened Octets
  import opened LimbDigits

  function Pow16(j: nat): (p: int)
    ensures p > 0
  {
    if j == 0 then 1 else 16 * Pow16(j - 1)
  }

  lemma Pow16Values()
    ensures Pow16(0) == 1 && Pow16(1) == 0x10 && Pow16(2) == 0x100 && Pow16(3) == 0x1000
    ensures Pow16(4) == 0x1_0000 && Pow16(5) == 0x10_0000 && Pow16(6) == 0x100_0000 && Pow16(7) == BASE
  {
    assert Pow16(7) == 16 * Pow16(6);
    assert Pow16(6) == 16 * Pow16(5);
    assert Pow16(5) == 16 * Pow16(4);
    assert Pow16(4) == 16 * Pow16(3);
    assert Pow16(3) == 16 * Pow16(2);
    assert Pow16(2) == 16 * Pow16(1);
    assert Pow16(1) == 16 * Pow16(0);
  }

  lemma PhaseProduct(j: nat)
    requires j <= 7
    ensures Pow16(j) * Pow16(7 - j) == BASE
    ensures Pow16(j) <= BASE && Pow16(7 - j) <= BASE
  {
    Pow16Values();
  }

  lemma PhaseBelowLimb(j: nat)
    requires j <= 7
    ensures Pow16(j) <= BASE
  {
    Pow16Values();
  }

  /** The limb made in phase `j` from the next word and the bits left over from the one before. */
  function PhaseLimb(data: uint32, temp: uint32, j: nat): uint32 {
    Wrap32(Wrap32(data * Pow16(j)) as int + temp) % BASE
  }

  /** The bits left over: `data >> (28 - 4 j)`. */
  function PhaseRest(data: uint32, j: nat): int
    requires j <= 7
  {
    data / Pow16(7 - j)
  }

  lemma PhaseSplit(data: uint32, temp: uint32, j: nat)
    requires j <= 7 && temp < Pow16(j)
    ensures data * Pow16(j) + temp == PhaseLimb(data, temp, j) + PhaseRest(data, j) * BASE
    ensures 0 <= PhaseRest(data, j) < Pow16(j + 1)
    ensures j == 7 ==> PhaseLimb(data, temp, j) == temp
  {
    PhaseProduct(j);
    var p, q := Pow16(j), Pow16(7 - j);
    ShiftIn(data, temp, p, q);
    MulLe(0, data, p);
    WrapSum(data * p, temp);
    if j == 7 {
      assert q == 1;
    }
  }

  lemma ShiftIn(data: int, temp: int, p: int, q: int)
    requires 0 <= data < 0x1_0000_0000 && p > 0 && q > 0 && p * q == BASE && 0 <= temp < p
    ensures data * p + temp == (data * p + temp) % BASE + (data / q) * BASE
    ensures (data * p + temp) % BASE == (data % q) * p + temp
    ensures 0 <= data / q < 16 * p
  {
    var h, l := data / q, data % q;
    assert data == h * q + l;
    assert (h * q + l) * p == h * (q * p) + l * p;
    MulLe(l, q - 1, p);
    MulLe(0, l, p);
    assert (q - 1) * p == BASE - p;
    DivModUnique(data * p + temp, BASE, h, l * p + temp);
    QuotientRange(data, q, h, p);
  }

  lemma QuotientRange(data: int, q: int, h: int, p: int)
    requires 0 <= data < 0x1_0000_0000 && q > 0 && h == data / q && p * q == BASE
    ensures 0 <= h < 16 * p
  {
    assert data == h * q + data % q;
    if h < 0 {
      MulLe(h, -1, q);
    }
    if h >= 16 * p {
      MulLe(16 * p, h, q);
    }
  }

  lemma WrapSum(x: int, y: int)
    requires x >= 0 && y >= 0
    ensures Wrap32(Wrap32(x) as int + y) % BASE == (x + y) % BASE
  {
    var q := x / 0x1_0000_0000;
    assert x + y == q * 0x1_0000_0000 + (x % 0x1_0000_0000 + y);
    WrapMod(x % 0x1_0000_0000 + y);
    var z := x % 0x1_0000_0000 + y;
    DivModUnique(x + y, BASE, q * 16 + z / BASE, z % BASE);
  }

  /** The state of the packing loop: `c` words have gone into `i` limbs and `4 j` bits of `temp`. */
  ghost predicate Packed(limbs: seq<uint32>, i: nat, temp: int, j: nat, src: seq<uint8>, c: nat) {
    && i <= |limbs| && 4 * c <= |src| && j <= 7 && 7 * i + j == 8 * c
    && Proper(limbs, i) && 0 <= temp < Pow16(j)
    && Pow(i) * Pow16(j) == PowWord(c)
    && Val(limbs, i) + temp * Pow(i) == WordVal(src, c)
  }

  /** Phases 0 to 6 take in a word. */
  lemma PackWord(before: seq<uint32>, after: seq<uint32>, i: nat, temp: uint32, j: nat, src: seq<uint8>, c: nat)
    requires Packed(before, i, temp, j, src, c) && j < 7 && 4 * (c + 1) <= |src| && i < |before| == |after|
    requires forall k :: 0 <= k < i ==> after[k] == before[k]
    requires after[i] == PhaseLimb(WordAt(src, 4 * c), temp, j)
    ensures Packed(after, i + 1, PhaseRest(WordAt(src, 4 * c), j), j + 1, src, c + 1)
  {
    var data := WordAt(src, 4 * c);
    PhaseSplit(data, temp, j);
    ValCong(before, after, i);
    PackUnits(Pow(i), Pow16(j), PowWord(c));
    PackValue(Val(before, i), temp, Pow(i), Pow16(j), data, PhaseLimb(data, temp, j), PhaseRest(data, j), PowWord(c));
    assert Proper(after, i + 1) by {
      assert PhaseLimb(data, temp, j) < BASE;
    }
  }

  lemma PackUnits(p: int, w: int, pw: int)
    requires p * w == pw
    ensures (BASE * p) * (16 * w) == 0x1_0000_0000 * pw
  {
  }

  lemma PackValue(v: int, temp: int, p: int, w: int, data: int, limb: int, rest: int, pw: int)
    requires data * w + temp == limb + rest * BASE && p * w == pw
    ensures v + limb * p + rest * (BASE * p) == v + temp * p + data * pw
  {
    assert (limb + rest * BASE) * p == limb * p + rest * (BASE * p);
    assert (data * w + temp) * p == data * (p * w) + temp * p;
  }

  /** Phase 7 only takes the bits left over. */
  lemma PackRest(before: seq<uint32>, after: seq<uint32>, i: nat, temp: uint32, src: seq<uint8>, c: nat)
    requires Packed(before, i, temp, 7, src, c) && i < |before| == |after|
    requires forall k :: 0 <= k < i ==> after[k] == before[k]
    requires after[i] == temp
    ensures Packed(after, i + 1, 0, 0, src, c)
  {
    ValCong(before, after, i);
    Pow16Values();
    assert Pow(i + 1) == BASE * Pow(i);
  }

  /** The bits left over after the last word, if any are set, make one more limb. */
  method PackLast(limbs: array<uint32>, i: nat, temp: uint32, j: nat, ghost src: seq<uint8>, ghost c: nat)
    returns (used: nat)
    requires limbs.Length == MAX_BN_ELEMENTS && Packed(limbs[..], i, temp, j, src, c) && i < MAX_BN_ELEMENTS
    requires forall k :: i <= k < MAX_BN_ELEMENTS ==> limbs[k] == 0
    modifies limbs
    ensures used <= MAX_BN_ELEMENTS && Proper(limbs[..], used) && ZeroFrom(limbs[..], used, MAX_BN_ELEMENTS)
    ensures Val(limbs[..], used) == WordVal(src, c)
  {
    used := i;
    if temp != 0 {
      ghost var before := limbs[..];
      PhaseProduct(j);
      limbs[i] := temp % BASE;
      AlreadyDigit(temp);
      assert limbs[..] == before[i := temp];
      LastLimb(before, limbs[..], i, temp, j, src, c);
      used := i + 1;
    }
  }

  lemma AlreadyDigit(x: nat)
    requires x < BASE
    ensures x % BASE == x
  {
  }

  lemma LastLimb(before: seq<uint32>, after: seq<uint32>, i: nat, temp: uint32, j: nat, src: seq<uint8>, c: nat)
    requires Packed(before, i, temp, j, src, c) && i < |before| == |after| && temp < BASE
    requires after == before[i := temp]
    ensures Proper(after, i + 1) && Val(after, i + 1) == WordVal(src, c)
  {
    ValCong(before, after, i);
  }

  /** One round of the packing loop: the limb, and the bits that carry over. */
  method PackRound(limbs: array<uint32>, i: nat, temp: uint32, j: nat, src: seq<uint8>, c: nat) returns (rest: uint32)
    requires limbs.Length == MAX_BN_ELEMENTS && i < MAX_BN_ELEMENTS && 4 * (c + 1) <= |src|
    requires Packed(limbs[..], i, temp, j, src, c)
    modifies limbs
    ensures if j == 7 then Packed(limbs[..], i + 1, 0, 0, src, c) else Packed(limbs[..], i + 1, rest, j + 1, src, c + 1)
    ensures forall k :: i < k < MAX_BN_ELEMENTS ==> limbs[k] == old(limbs[k])
  {
    ghost var before := limbs[..];
    var data := WordAt(src, 4 * c);
    PhaseSplit(data, temp, j);
    Pow16Values();
    limbs[i] := PhaseLimb(data, temp, j);
    rest := if j == 7 then data else PhaseRest(data, j);
    if j == 7 {
      PackRest(before, limbs[..], i, temp, src, c);
    } else {
      PackWord(before, limbs[..], i, temp, j, src, c);
    }
  }

  /** The packing loop over a non-empty octet string of whole words. */
  method PackLimbs(limbs: array<uint32>, src: seq<uint8>, ghost words: nat) returns (used: nat)
    requires limbs.Length == MAX_BN_ELEMENTS && ZeroFrom(limbs[..], 0, MAX_BN_ELEMENTS)
    requires |src| == 4 * words && 0 < words < 70
    modifies limbs
    ensures used <= MAX_BN_ELEMENTS && Proper(limbs[..], used) && ZeroFrom(limbs[..], used, MAX_BN_ELEMENTS)
    ensures Val(limbs[..], used) == WordVal(src, words)
  {
    var i, j, c := 0, 0, 0;
    var temp: uint32 := 0;
    var left := |src|;
    used := 0;
    while true
      invariant left == 4 * (words - c) && left > 0
      invariant Packed(limbs[..], i, temp, j, src, c)
      invariant forall k :: i <= k < MAX_BN_ELEMENTS ==> limbs[k] == 0
      decreases left, j
    {
      var rest := PackRound(limbs, i, temp, j, src, c);
      i := i + 1;
      j := j + 1;
      if j == 8 {
        j := 0;
        temp := 0;
      } else {
        temp := rest;
        c := c + 1;
        left := left - 4;
        if left == 0 {
          used := PackLast(limbs, i, temp, j, src, c);
          break;
        }
      }
    }
  }

  /** Loads a little-endian octet string. */
  method Load(bn: KcBignum, src: seq<uint8>) returns (status: Status)
    requires bn.Valid() && |src| > 0
    modifies bn, bn.data
    ensures bn.Valid()
    ensures status == if |src| % 4 != 0 || |src| / 7 * 2 + 2 > 80 then DataLength else Ok
    ensures status == Ok ==> Holds(bn, OctetVal(src, |src|)) && bn.Clean()
  {
    var bnLen := |src| / 7 * 2;
    if |src| % 4 != 0 {
      return DataLength;
    }
    if bnLen + 2 > MAX_BN_ELEMENTS {
      return DataLength;
    }
    Zero(bn);
    for i := 0 to MAX_BN_ELEMENTS
      invariant bn.used == 0 && bn.sign == 0
      invariant forall k :: 0 <= k < i ==> bn.data[k] == 0
    {
      bn.data[i] := 0;
    }
    var used := PackLimbs(bn.data, src, |src| / 4);
    WordsAreOctets(src, |src| / 4);
    bn.limbs := bn.data[..];
    bn.used := used;
    Trim(bn);
    return Ok;
  }

  /** The words that `i` rounds of the storing loop leave behind: seven in eight rounds move on. */
  function Advance(i: nat): nat {
    i - i / 8
  }

  /** Eight rounds move on by seven words. */
  lemma AdvanceRounds(i: nat, q: nat, j: nat)
    requires i == 8 * q + j && j < 8
    ensures i % 8 == j && Advance(i) == 7 * q + j
    ensures i > 0 ==> Advance(i - 1) == if j == 0 then 7 * q else 7 * q + j - 1
  {
    DivModUnique(i, 8, q, j);
    if j > 0 {
      DivModUnique(i - 1, 8, q, j - 1);
    } else if i > 0 {
      DivModUnique(i - 1, 8, q - 1, 7);
    }
  }

  lemma AdvanceMono(i: nat, k: nat)
    requires i <= k
    ensures Advance(i) <= Advance(k)
  {
  }

  /** The words written for a number of `n` limbs: the last limb gets a word of its own only when the one
      before it ended a group of eight. */
  function WordsWritten(n: nat): nat
    requires n > 0
  {
    Advance(n - 1) + if n > 1 && (n - 1) % 8 == 0 then 1 else 0
  }

  /** The word made in phase `j` from a limb and the next one. */
  function PhaseWord(limb: uint32, next: uint32, j: nat): uint32
    requires j < 7
  {
    Wrap32(limb / Pow16(j) + Wrap32((next % Pow16(j + 1)) * Pow16(7 - j)))
  }

  lemma PhaseJoin(limb: uint32, next: uint32, j: nat)
    requires j < 7 && limb < BASE
    ensures PhaseWord(limb, next, j) == limb / Pow16(j) + (next % Pow16(j + 1)) * Pow16(7 - j)
    ensures Pow16(j) * PhaseWord(limb, next, j) + limb % Pow16(j) == limb + (next % Pow16(j + 1)) * BASE
  {
    PhaseProduct(j);
    Pow16Values();
    JoinFits(limb, next % Pow16(j + 1), Pow16(j), Pow16(7 - j));
  }

  lemma JoinFits(limb: int, low: int, p: int, q: int)
    requires 0 <= limb < BASE && p > 0 && q > 0 && p * q == BASE && 0 <= low < 16 * p
    ensures 0 <= low * q && 0 <= limb / p && limb / p + low * q < 0x1_0000_0000
    ensures p * (limb / p + low * q) + limb % p == limb + low * BASE
  {
    QuotientBelow(limb, p, q);
    MulLe(0, low, q);
    MulLe(low, 16 * p - 1, q);
    assert (16 * p - 1) * q == 16 * BASE - q;
    var h := limb / p;
    assert limb == h * p + limb % p;
    assert p * (h + low * q) == h * p + low * (p * q);
  }

  lemma QuotientBelow(limb: int, p: int, q: int)
    requires 0 <= limb < p * q && p > 0 && q > 0
    ensures 0 <= limb / p < q
  {
    var h := limb / p;
    assert limb == h * p + limb % p;
    if h < 0 {
      MulLe(h, -1, p);
    }
    if h >= q {
      MulLe(q, h, p);
    }
  }

  /** The state of the storing loop: `i` rounds have filled `c` words, down to `4 j` bits of limb `i`. */
  ghost predicate Stored(limbs: seq<uint32>, i: nat, j: nat, out: seq<uint8>, c: nat) {
    && i < |limbs| && 4 * c <= |out| && j <= 7
    && Pow(i) * Pow16(j) == PowWord(c)
    && WordVal(out, c) == Val(limbs, i) + (limbs[i] % Pow16(j)) * Pow(i)
  }

  lemma StoreWord(limbs: seq<uint32>, i: nat, j: nat, before: seq<uint8>, after: seq<uint8>, c: nat)
    requires Stored(limbs, i, j, before, c) && j < 7 && i + 1 < |limbs| && 4 * (c + 1) <= |before| == |after|
    requires limbs[i] < BASE && forall k :: 0 <= k < 4 * c ==> after[k] == before[k]
    requires WordAt(after, 4 * c) == PhaseWord(limbs[i], limbs[i + 1], j)
    ensures Stored(limbs, i + 1, j + 1, after, c + 1)
  {
    WordCong(before, after, c);
    PhaseJoin(limbs[i], limbs[i + 1], j);
    PackUnits(Pow(i), Pow16(j), PowWord(c));
    StoreValue(Val(limbs, i), limbs[i], limbs[i] % Pow16(j), limbs[i + 1] % Pow16(j + 1), Pow(i), Pow16(j),
               PhaseWord(limbs[i], limbs[i + 1], j), PowWord(c));
  }

  lemma StoreValue(v: int, limb: int, low: int, next: int, p: int, w: int, word: int, pw: int)
    requires w * word + low == limb + next * BASE && p * w == pw
    ensures v + low * p + word * pw == v + limb * p + next * (BASE * p)
  {
    assert word * (p * w) == (w * word) * p;
    DistributeSum(w * word, low, p);
    assert (limb + next * BASE) * p == limb * p + next * (BASE * p);
  }

  /** Phase 7 puts the next limb in the word that the round after it completes. */
  lemma StoreRest(limbs: seq<uint32>, i: nat, before: seq<uint8>, after: seq<uint8>, c: nat)
    requires Stored(limbs, i, 7, before, c) && i + 1 < |limbs| && |before| == |after|
    requires limbs[i] < BASE && forall k :: 0 <= k < 4 * c ==> after[k] == before[k]
    ensures Stored(limbs, i + 1, 0, after, c)
  {
    WordCong(before, after, c);
    Pow16Values();
    assert Pow(i + 1) == BASE * Pow(i);
    assert limbs[i + 1] % Pow16(0) == 0;
    DivModUnique(limbs[i], BASE, 0, limbs[i]);
  }

  /** What the storing loop leaves behind for `n` limbs: the value modulo the words it has written. */
  lemma StoredResidue(limbs: seq<uint32>, n: nat, out: seq<uint8>, c: nat)
    requires 0 < n <= |limbs| && Proper(limbs, n) && c == Advance(n - 1)
    requires Stored(limbs, n - 1, (n - 1) % 8, out, c)
    requires n > 1 && (n - 1) % 8 == 0 ==> 4 * (c + 1) <= |out| && WordAt(out, 4 * c) == limbs[n - 1]
    ensures WordVal(out, WordsWritten(n)) == Val(limbs, n) % PowWord(WordsWritten(n))
  {
    var j := (n - 1) % 8;
    if n > 1 && j == 0 {
      LastWord(limbs, n, out, c);
    } else {
      LowWords(limbs, n, out, c, j);
    }
  }

  lemma LowWords(limbs: seq<uint32>, n: nat, out: seq<uint8>, c: nat, j: nat)
    requires 0 < n <= |limbs| && Proper(limbs, n) && Stored(limbs, n - 1, j, out, c)
    ensures WordVal(out, c) == Val(limbs, n) % PowWord(c)
  {
    ValBound(limbs, n - 1);
    LowPart(Val(limbs, n - 1), limbs[n - 1], Pow(n - 1), Pow16(j));
  }

  lemma LastWord(limbs: seq<uint32>, n: nat, out: seq<uint8>, c: nat)
    requires 1 < n <= |limbs| && Proper(limbs, n) && 4 * (c + 1) <= |out|
    requires Stored(limbs, n - 1, 0, out, c) && WordAt(out, 4 * c) == limbs[n - 1]
    ensures WordVal(out, c + 1) == Val(limbs, n) % PowWord(c + 1)
  {
    var p := Pow(n - 1);
    assert Pow16(0) == 1 && limbs[n - 1] % 1 == 0 && PowWord(c) == p;
    ValBound(limbs, n);
    assert Pow(n) == BASE * p && PowWord(c + 1) == 0x1_0000_0000 * p;
    DivModUnique(Val(limbs, n), PowWord(c + 1), 0, Val(limbs, n));
  }

  lemma LowPart(v: int, top: int, p: int, w: int)
    requires 0 <= v < p && top >= 0 && w > 0
    ensures p * w > 0 && (v + top * p) % (p * w) == v + (top % w) * p
  {
    var h, l := top / w, top % w;
    assert top == h * w + l;
    assert (h * w + l) * p == h * (p * w) + l * p;
    MulLe(0, l, p);
    MulLe(l, w - 1, p);
    assert (w - 1) * p == p * w - p;
    MulLe(1, w, p);
    DivModUnique(v + top * p, p * w, h, v + l * p);
  }

  ghost predicate SoFar(limbs: seq<uint32>, i: nat, j: nat, out: seq<uint8>, c: nat) {
    && Stored(limbs, i, j, out, c)
    && (j == 0 && i > 0 ==> 4 * (c + 1) <= |out| && WordAt(out, 4 * c) == limbs[i])
  }

  /** `SoFar`, for a number that is not zero. A proof that does not mention `SoFar` takes it as a whole. */
  ghost predicate Kept(limbs: seq<uint32>, n: nat, i: nat, j: nat, out: seq<uint8>, c: nat) {
    n > 0 ==> forall o :: o == out ==> SoFar(limbs, i, j, o, c)
  }

  /** One round of the storing loop: a write, and a step to the next word unless the phase was the last. */
  method StoreRound(limbs: seq<uint32>, ghost n: nat, out: array<uint8>, i: nat, j: nat, c: nat)
    returns (nextPhase: nat, nextWord: nat)
    requires |limbs| == MAX_BN_ELEMENTS && i + 1 < MAX_BN_ELEMENTS && j <= 7 && 4 * (c + 1) <= out.Length
    requires Kept(limbs, n, i, j, out[..], c) && (n > 0 ==> limbs[i] < BASE)
    modifies out
    ensures nextPhase == if j == 7 then 0 else j + 1
    ensures nextWord == if j == 7 then c else c + 1
    ensures Kept(limbs, n, i + 1, nextPhase, out[..], nextWord)
    ensures forall k :: 4 * (c + 1) <= k < out.Length ==> out[k] == old(out[k])
  {
    ghost var before := out[..];
    assert n > 0 ==> SoFar(limbs, i, j, before, c);
    if j == 7 {
      PutWord(out, 4 * c, Wrap32(limbs[i] / Pow16(7) + limbs[i + 1]));
      if n > 0 {
        Pow16Values();
        DivModUnique(limbs[i], BASE, 0, limbs[i]);
        StoreRest(limbs, i, before, out[..], c);
      }
      return 0, c;
    }
    PutWord(out, 4 * c, PhaseWord(limbs[i], limbs[i + 1], j));
    if n > 0 {
      StoreWord(limbs, i, j, before, out[..], c);
    }
    return j + 1, c + 1;
  }

  /** Where the storing loop is: limb `i` in phase `j` goes to word `c`; the words from `top` on are untouched. */
  ghost predicate StoreAt(i: nat, j: nat, q: nat, c: nat, top: nat) {
    && i == 8 * q + j && j < 8 && c == 7 * q + j
    && top == (if j == 0 && i > 0 then c + 1 else c) && (i > 0 ==> top > 0)
  }

  lemma NextStoreAt(i: nat, j: nat, q: nat, c: nat, top: nat, words: nat)
    requires StoreAt(i, j, q, c, top) && top <= words && c != words
    ensures if j == 7 then StoreAt(i + 1, 0, q + 1, c, c + 1) else StoreAt(i + 1, j + 1, q, c + 1, c + 1)
    ensures top <= c + 1 <= words && (words <= 70 ==> i < 79)
  {
  }

  /** The storing loop. Its bound `used - 1` wraps around for zero, so that only the end of the buffer stops it. */
  method StoreRounds(limbs: seq<uint32>, n: nat, out: array<uint8>, ghost words: nat)
    returns (full: bool, i: nat, j: nat, ghost q: nat, ghost top: nat)
    requires |limbs| == MAX_BN_ELEMENTS && n <= MAX_BN_ELEMENTS && Proper(limbs, n)
    requires out.Length == 4 * words && (n == 0 ==> words <= 70)
    modifies out
    ensures i == 8 * q + j && j < 8 && i < MAX_BN_ELEMENTS
    ensures full ==> words == 7 * q + j && (n > 0 ==> i < n - 1)
    ensures !full ==> n > 0 && i == n - 1 && Kept(limbs, n, i, j, out[..], 7 * q + j)
    ensures top == if j == 0 && i > 0 then 7 * q + j + 1 else 7 * q + j
    ensures top <= words && (i > 0 ==> top > 0)
    ensures forall k :: 4 * top <= k < out.Length ==> out[k] == old(out[k])
  {
    var c := 0;
    var last := Wrap32(n - 1);
    assert last == if n == 0 then 0xFFFF_FFFF else n - 1;
    i, j, q, top := 0, 0, 0, 0;
    while i < last
      invariant i <= 79 && (n > 0 ==> i < n) && StoreAt(i, j, q, c, top) && top <= words
      invariant Kept(limbs, n, i, j, out[..], c)
      invariant forall k :: 4 * top <= k < out.Length ==> out[k] == old(out[k])
    {
      if 4 * c == out.Length {
        assert c == words;
        return true, i, j, q, top;
      }
      NextStoreAt(i, j, q, c, top, words);
      top := c + 1;
      q := if j == 7 then q + 1 else q;
      j, c := StoreRound(limbs, n, out, i, j, c);
      i := i + 1;
    }
    full := false;
  }

  method StoreLimbs(limbs: seq<uint32>, n: nat, out: array<uint8>, ghost words: nat) returns (status: Status)
    requires |limbs| == MAX_BN_ELEMENTS && n <= MAX_BN_ELEMENTS && Proper(limbs, n)
    requires out.Length == 4 * words && (n == 0 ==> words <= 70)
    modifies out
    ensures status == if n == 1 || (n > 1 && 4 * Advance(n - 2) < out.Length) then Ok else StoreOverflow
    ensures status == Ok ==> 4 * WordsWritten(n) <= out.Length
    ensures status == Ok ==> WordVal(out[..], WordsWritten(n)) == Val(limbs, n) % PowWord(WordsWritten(n))
    ensures status == Ok ==> forall k :: 4 * WordsWritten(n) <= k < out.Length ==> out[k] == old(out[k])
  {
    var full, i, j, q, top := StoreRounds(limbs, n, out, words);
    AdvanceRounds(i, q, j);
    if full {
      if n > 1 {
        AdvanceMono(i, n - 2);
      }
      return StoreOverflow;
    }
    assert SoFar(limbs, i, j, out[..], 7 * q + j);
    StoredResidue(limbs, n, out[..], 7 * q + j);
    return Ok;
  }

  /** Stores a number as a little-endian octet string. It succeeds exactly when all rounds of the loop find room,
      and then the octets it wrote denote the value cut to that many words. */
  method Store(bn: KcBignum, out: array<uint8>) returns (status: Status)
    requires bn.Valid() && (bn.Abs() == 0 ==> out.Length <= 280)
    modifies bn`used, out
    ensures bn.Valid() && bn.limbs == old(bn.limbs) && bn.Abs() == old(bn.Abs())
    ensures status == StoreStatus(bn.Abs(), out.Length)
    ensures status == DataLength ==> forall k :: 0 <= k < out.Length ==> out[k] == old(out[k])
    ensures status == Ok ==> 4 * WordsWritten(LimbCount(bn.Abs())) <= out.Length
    ensures status == Ok ==>
      OctetVal(out[..], 4 * WordsWritten(LimbCount(bn.Abs()))) == bn.Abs() % Pow256(4 * WordsWritten(LimbCount(bn.Abs())))
    ensures status == Ok ==>
      forall k :: 4 * WordsWritten(LimbCount(bn.Abs())) <= k < out.Length ==> out[k] == old(out[k])
  {
    if out.Length % 4 != 0 {
      return DataLength;
    }
    Trim(bn);
    DigitsUnique(bn.limbs, bn.used);
    status := StoreLimbs(bn.data[..], bn.used, out, out.Length / 4);
    if status == Ok {
      WordsAreOctets(out[..], WordsWritten(bn.used));
      PowWordOctets(WordsWritten(bn.used));
    }
  }

  /** When storing succeeds. Zero is always an error, as it is taken for a number of 2^32 limbs. */
  function StoreStatus(v: nat, length: nat): Status {
    var n := LimbCount(v);
    if length % 4 != 0 then DataLength
    else if n == 1 || (n > 1 && 4 * Advance(n - 2) < length) then Ok
    else StoreOverflow
  }

  /** The values that storing writes out in full: those below 2^32 to the number of words written. */
  predicate FullyEmitted(v: nat) {
    v > 0 && v < PowWord(WordsWritten(LimbCount(v)))
  }

  /** In terms of limbs: more than one limb, and either a last limb that starts a group of eight, or a last limb
      that fits the bits the loop takes from it. */
  lemma EmittedTop(s: seq<uint32>, n: nat)
    requires 0 < n <= |s| && Proper(s, n) && s[n - 1] != 0
    ensures FullyEmitted(Val(s, n)) <==> n > 1 && ((n - 1) % 8 == 0 || s[n - 1] < Pow16((n - 1) % 8))
  {
    DigitsUnique(s, n);
    WordsUnits(n);
    ValBound(s, n - 1);
    ValBound(s, n);
    var j, p := (n - 1) % 8, Pow(n - 1);
    if n > 1 && j == 0 {
      assert Pow(n) == BASE * p;
    } else {
      TopDecides(Val(s, n - 1), s[n - 1], p, Pow16(j));
      assert j == 0 ==> Pow16(j) == 1;
    }
  }

  lemma TopDecides(v: int, top: int, p: int, w: int)
    requires 0 <= v < p && top > 0
    ensures v + top * p > 0
    ensures v + top * p < p * w <==> top < w
  {
    MulLe(1, top, p);
    if top < w {
      MulLe(top + 1, w, p);
      DistributeSum(top, 1, p);
    } else {
      MulLe(w, top, p);
    }
  }

  lemma WordsUnits(n: nat)
    requires n > 0
    ensures PowWord(WordsWritten(n)) == if n > 1 && (n - 1) % 8 == 0 then 0x1_0000_0000 * Pow(n - 1)
                                         else Pow(n - 1) * Pow16((n - 1) % 8)
  {
    RoundUnits(n - 1);
    assert Pow16(0) == 1;
  }

  lemma RoundUnits(i: nat)
    ensures PowWord(Advance(i)) == Pow(i) * Pow16(i % 8)
  {
    AdvanceRounds(i, i / 8, i % 8);
    UnitsAt(i, i / 8, i % 8);
  }

  lemma {:induction false} UnitsAt(i: nat, q: nat, j: nat)
    requires i == 8 * q + j && j < 8
    ensures PowWord(7 * q + j) == Pow(i) * Pow16(j)
    decreases i
  {
    if j > 0 {
      UnitsAt(i - 1, q, j - 1);
      PackUnits(Pow(i - 1), Pow16(j - 1), PowWord(7 * q + j - 1));
    } else if q > 0 {
      UnitsAt(i - 1, q - 1, 7);
      Pow16Values();
    }
  }

  /** Octet strings of one length that denote the same integer are equal. */
  lemma {:induction false} OctetsUnique(s: seq<uint8>, t: seq<uint8>, n: nat)
    requires n <= |s| && n <= |t| && OctetVal(s, n) == OctetVal(t, n)
    ensures s[..n] == t[..n]
  {
    if n > 0 {
      OctetBound(s, n - 1);
      OctetBound(t, n - 1);
      var p := Pow256(n - 1);
      DivModUnique(OctetVal(s, n), p, s[n - 1], OctetVal(s, n - 1));
      DivModUnique(OctetVal(t, n), p, t[n - 1], OctetVal(t, n - 1));
      OctetsUnique(s, t, n - 1);
      assert s[..n] == s[..n - 1] + [s[n - 1]] && t[..n] == t[..n - 1] + [t[n - 1]];
    }
  }

  /** Storing what was loaded, into a zeroed buffer of the same length, gives the octets back exactly for the
      values whose last limb is emitted in full. */
  method StoreAfterLoad(src: seq<uint8>) returns (loaded: Status, stored: Status, out: seq<uint8>)
    requires |src| > 0
    ensures loaded == if |src| % 4 != 0 || |src| / 7 * 2 + 2 > MAX_BN_ELEMENTS then DataLength else Ok
    ensures loaded == Ok ==> (stored == Ok && out == src <==> FullyEmitted(OctetVal(src, |src|)))
  {
    var bn := new KcBignum();
    stored, out := DataLength, [];
    loaded := Load(bn, src);
    if loaded == Ok {
      var buffer := new uint8[|src|](_ => 0);
      ghost var v := bn.Abs();
      stored := Store(bn, buffer);
      out := buffer[..];
      RestoredOrCut(src, out, v, stored);
    }
  }

  lemma RestoredOrCut(src: seq<uint8>, out: seq<uint8>, v: nat, stored: Status)
    requires |src| % 4 == 0 && |out| == |src| && v == OctetVal(src, |src|)
    requires stored == StoreStatus(v, |src|)
    requires stored == Ok ==> 4 * WordsWritten(LimbCount(v)) <= |out|
    requires stored == Ok ==>
      OctetVal(out, 4 * WordsWritten(LimbCount(v))) == v % Pow256(4 * WordsWritten(LimbCount(v)))
    requires stored == Ok ==> forall k :: 4 * WordsWritten(LimbCount(v)) <= k < |out| ==> out[k] == 0
    ensures stored == Ok && out == src <==> FullyEmitted(v)
  {
    if v > 0 {
      var w := WordsWritten(LimbCount(v));
      PowWordOctets(w);
      if stored == Ok {
        OctetZeroTail(out, 4 * w, |out|);
        if v < Pow256(4 * w) {
          DivModUnique(v, Pow256(4 * w), 0, v);
          OctetsUnique(out, src, |src|);
          assert out[..|src|] == out && src[..|src|] == src;
        }
      } else if FullyEmitted(v) {
        OctetBound(src, |src|);
        PowWordOctets(|src| / 4);
        RoomForValue(v, |src| / 4);
      }
    }
  }

  /** A value that fits the buffer never runs out of room. */
  lemma RoomForValue(v: nat, words: nat)
    requires 0 < v < PowWord(words)
    ensures StoreStatus(v, 4 * words) == Ok
  {
    var n := LimbCount(v);
    if n > 1 {
      var i := n - 2;
      RoundsBelow(i);
      CountBounds(v);
      assert PowWord(Advance(i)) <= v;
      if words <= Advance(i) {
        PowWordMono(words, Advance(i));
        assert false;
      }
    }
  }

  lemma RoundsBelow(i: nat)
    ensures PowWord(Advance(i)) <= Pow(i + 1)
  {
    RoundUnits(i);
    PhaseBelowLimb(i % 8);
    assert Pow(i + 1) == BASE * Pow(i);
    ScaledBelow(Pow16(i % 8), Pow(i), PowWord(Advance(i)), Pow(i + 1));
  }

  lemma ScaledBelow(q: int, p: int, w: int, next: int)
    requires 0 <= p && q <= BASE && w == p * q && next == BASE * p
    ensures w <= next
  {
    MulLe(q, BASE, p);
  }

  lemma {:induction false} CountBounds(v: nat)
    requires v > 0
    ensures Pow(LimbCount(v) - 1) <= v
  {
    var n := LimbCount(v);
    if n > 1 {
      CountBounds(v / BASE);
      assert Pow(n - 1) == BASE * Pow(n - 2);
    }
  }

  lemma {:induction false} PowWordMono(a: nat, b: nat)
    requires a <= b
    ensures PowWord(a) <= PowWord(b)
    decreases b - a
  {
    if a < b {
      PowWordMono(a + 1, b);
    }
  }
}
