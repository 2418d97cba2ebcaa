/** The end of Barrett reduction: subtracting the modulus until a comparison of whole buffers says "smaller". */
module BnCorrection {
  import opened Word
  import opened Limbs
  import opened BigNum
  import opened BnAddSub
  import opened BnDivide
  import opened BnDiv

  /** What the limbs from position `from` on are worth in a buffer of 80. */
  ghost function Stale(s: seq<uint32>, from: nat): int
    requires |s| == MAX_BN_ELEMENTS && from <= MAX_BN_ELEMENTS
  {
    Val(s, MAX_BN_ELEMENTS) - Val(s, from)
  }

  lemma StaleRange(s: seq<uint32>, from: nat)
    requires |s| == MAX_BN_ELEMENTS && from <= MAX_BN_ELEMENTS
    ensures Stale(s, from) >= 0 && (Stale(s, from) == 0 <==> ZeroFrom(s, from, MAX_BN_ELEMENTS))
    ensures Stale(s, from) == 0 || Stale(s, from) >= Pow(from)
  {
    ValPrefix(s, from, MAX_BN_ELEMENTS);
    if ZeroFrom(s, from, MAX_BN_ELEMENTS) {
      ValZeroTail(s, from, MAX_BN_ELEMENTS);
    } else {
      var i :| from <= i < MAX_BN_ELEMENTS && s[i] != 0;
      NonZeroAbove(s, from, i, MAX_BN_ELEMENTS);
    }
  }

  lemma {:induction false} NonZeroAbove(s: seq<uint32>, from: nat, i: nat, n: nat)
    requires from <= i < n <= |s| && s[i] != 0
    ensures Val(s, n) - Val(s, from) >= Pow(from)
    decreases n
  {
    if i == n - 1 {
      ValPrefix(s, from, i);
      MulLe(1, s[i], Pow(i));
      PowMono(from, i);
    } else {
      NonZeroAbove(s, from, i, n - 1);
      MulLe(0, s[n - 1], Pow(n - 1));
    }
  }

  /** Only the limbs from `from` on matter. */
  lemma StaleCong(s: seq<uint32>, t: seq<uint32>, from: nat)
    requires |s| == |t| == MAX_BN_ELEMENTS && from <= MAX_BN_ELEMENTS
    requires forall i :: from <= i < MAX_BN_ELEMENTS ==> s[i] == t[i]
    ensures Stale(s, from) == Stale(t, from)
  {
    assert s[from..] == t[from..];
    ValSplit(s, from, MAX_BN_ELEMENTS);
    ValSplit(t, from, MAX_BN_ELEMENTS);
  }

  /** Zeros do not add to what is stale. */
  lemma StaleBeyond(s: seq<uint32>, from: nat, to: nat)
    requires |s| == MAX_BN_ELEMENTS && from <= to <= MAX_BN_ELEMENTS && ZeroFrom(s, from, to)
    ensures Stale(s, from) == Stale(s, to)
  {
    ValZeroTail(s, from, to);
  }

  /**
   When the loop ends well, for a buffer `s` whose `used` lowest limbs denote `v`. The comparison sees the stale limbs
   above them: they must not keep it from saying "smaller", nor may `v` reach the modulus exactly, and it takes at most
   eleven rounds.
  */
  ghost predicate Corrects(s: seq<uint32>, v: int, used: nat, m: int, k: nat)
    requires |s| == MAX_BN_ELEMENTS && m > 0
  {
    if v == 0 then Val(s, MAX_BN_ELEMENTS) < m
    else if v < m then ZeroFrom(s, k, MAX_BN_ELEMENTS)
    else ZeroFrom(s, used, MAX_BN_ELEMENTS) && v % m != 0 && v / m <= 11
  }

  /** What it ends with: the remainder, or the remainder less the modulus if stale limbs asked for one round more. */
  ghost function Corrected(s: seq<uint32>, v: int, m: int): int
    requires |s| == MAX_BN_ELEMENTS && m > 0
  {
    if 0 < v < m <= Val(s, MAX_BN_ELEMENTS) then v - m else v % m
  }

  /**
   The states of the loop:
   Down: the value is on its way down, and stale limbs are as they were;
   Turned: it has gone below zero by a round too many, and the comparison says "smaller" now;
   Dead: it is zero or less, and the comparison will never say "smaller" again.
  */
  datatype Mode = Down | Turned | Dead

  /** The buffer in each state: it started as `s`, with `used0` limbs in use. */
  ghost predicate InMode(mode: Mode, r: KcBignum, m: int, v: int, s: seq<uint32>, used0: nat)
    requires |s| == MAX_BN_ELEMENTS
    reads r, r.data
  {
    && r.Valid() && r.Trimmed() && Proper(r.limbs, MAX_BN_ELEMENTS) && r.Value() == v
    && match mode
       case Down =>
         && r.sign == 0 && r.used <= used0 <= MAX_BN_ELEMENTS && (v == 0 ==> used0 == 0)
         && ZeroFrom(r.limbs, r.used, used0) && forall i :: used0 <= i < MAX_BN_ELEMENTS ==> r.limbs[i] == s[i]
       case Turned => -m < v < 0 && Val(r.limbs, MAX_BN_ELEMENTS) < m
       case Dead => v <= 0 && Val(r.limbs, MAX_BN_ELEMENTS) >= m
  }

  /** The state after one more subtraction, of a buffer with the limbs `before`. */
  ghost function NextMode(mode: Mode, before: seq<uint32>, v: int, m: int, k: nat): Mode
    requires |before| == MAX_BN_ELEMENTS
  {
    if mode == Down && v > m then Down
    else if mode == Down && 0 < v < m && ZeroFrom(before, k, MAX_BN_ELEMENTS) then Turned
    else Dead
  }

  /** One round of the loop. */
  method SubtractModulus(r: KcBignum, m: KcBignum, ghost mode: Mode, ghost v: int, ghost s: seq<uint32>,
                         ghost used0: nat) returns (status: Status)
    requires m.Valid() && m.Trimmed() && m.sign == 0 && Separate(r, m) && 0 < m.used && m.used + 2 <= MAX_BN_ELEMENTS
    requires |s| == MAX_BN_ELEMENTS && InMode(mode, r, m.Abs(), v, s, used0) && mode != Turned
    requires -11 * m.Abs() <= v < Pow(m.used + 1)
    modifies r, r.data
    ensures status == Ok
    ensures InMode(NextMode(mode, old(r.limbs), v, m.Abs(), m.used), r, m.Abs(), v - m.Abs(), s, used0)
  {
    ghost var M, k, R0 := m.Abs(), m.used, r.limbs;
    ghost var a, sign, used, longer := r.Abs(), r.sign, r.used, Longer(r, m);
    ValBound(m.limbs, k);
    ShortNumeral(r.limbs, r.used, k + 1);
    PositiveWhenUsed(m.limbs, k);
    CanonicalLength(r.limbs, r.used, m.limbs, k);
    status := Subtract(r, r, m);
    if mode == Down {
      NextDown(r, R0, used, longer, M, k, v, s, used0);
    } else {
      NextDead(r, R0, a, sign, used, longer, M, v);
    }
  }

  /** A numeral below B^n has at most n limbs. */
  lemma ShortNumeral(s: seq<uint32>, used: nat, n: nat)
    requires used <= |s| && (used > 0 ==> s[used - 1] != 0) && Val(s, used) < Pow(n)
    ensures used <= n
  {
    if used > n {
      AtLeastTop(s, used);
      PowMono(n, used - 1);
    }
  }

  lemma AtLeastTop(s: seq<uint32>, n: nat)
    requires 0 < n <= |s| && s[n - 1] != 0
    ensures Val(s, n) >= Pow(n - 1)
  {
    ValLower(s, n - 1, n);
    MulLe(1, s[n - 1], Pow(n - 1));
  }

  lemma NextDead(r: KcBignum, before: seq<uint32>, a: int, sign: nat, used: nat, longer: nat, m: int, v: int)
    requires r.Valid() && r.Trimmed() && r.Value() == v - m && |before| == MAX_BN_ELEMENTS && sign <= 1
    requires m > 0 && v <= 0 && v == Signed(sign, a) && a >= 0 && longer < MAX_BN_ELEMENTS
    requires Proper(before, MAX_BN_ELEMENTS)
    requires sign == 0 ==> SubtractFrame(a, m, sign, used, longer, before, r)
    requires sign == 1 ==> AddFrame(sign, longer, before, r)
    ensures v - m <= 0 && Proper(r.limbs, MAX_BN_ELEMENTS) && Val(r.limbs, MAX_BN_ELEMENTS) >= m
  {
    ValPrefix(r.limbs, r.used, MAX_BN_ELEMENTS);
  }

  lemma NextDown(r: KcBignum, before: seq<uint32>, used: nat, longer: nat, m: int, k: nat, v: int, s: seq<uint32>,
                 used0: nat)
    requires r.Valid() && r.Trimmed() && r.Value() == v - m && |before| == |s| == MAX_BN_ELEMENTS
    requires 0 < m < Pow(k) && v >= 0 && longer < MAX_BN_ELEMENTS && Proper(before, MAX_BN_ELEMENTS)
    requires used <= used0 <= MAX_BN_ELEMENTS && longer == (if used > k then used else k) && Val(before, used) == v
    requires (v < m ==> used <= k) && (v > m ==> used >= k) && (v == 0 ==> used0 == 0)
    requires ZeroFrom(before, used, used0) && forall i :: used0 <= i < MAX_BN_ELEMENTS ==> before[i] == s[i]
    requires SubtractFrame(v, m, 0, used, longer, before, r)
    ensures InMode(NextMode(Down, before, v, m, k), r, m, v - m, s, used0)
  {
    ValPrefix(r.limbs, r.used, MAX_BN_ELEMENTS);
    if v == m {
      ValPrefix(before, used, MAX_BN_ELEMENTS);
    } else if 0 < v < m {
      if ZeroFrom(before, k, MAX_BN_ELEMENTS) {
        assert ZeroFrom(r.limbs, r.used, MAX_BN_ELEMENTS);
        ValZeroTail(r.limbs, r.used, MAX_BN_ELEMENTS);
      } else {
        var i :| k <= i < MAX_BN_ELEMENTS && before[i] != 0;
        assert r.limbs[i] == before[i];
        ValLower(r.limbs, i, MAX_BN_ELEMENTS);
        MulLe(1, r.limbs[i], Pow(i));
        PowMono(k, i);
      }
    }
  }

  /** What is known of a state: how many rounds led to it, and what it means for the end. */
  ghost predicate History(mode: Mode, s: seq<uint32>, v0: int, used0: nat, m: int, k: nat, v: int, count: nat)
    requires |s| == MAX_BN_ELEMENTS && m > 0
  {
    && v == v0 - count * m
    && match mode
       case Down => v >= 0
       case Turned => 0 < v0 < m && count == 1 && Corrects(s, v0, used0, m, k) && Val(s, MAX_BN_ELEMENTS) >= m
       case Dead => !Corrects(s, v0, used0, m, k)
  }

  /** The buffer that the loop starts from. */
  ghost predicate Start(s: seq<uint32>, v0: int, used0: nat, m: int, k: nat) {
    && |s| == MAX_BN_ELEMENTS && Proper(s, MAX_BN_ELEMENTS) && used0 <= MAX_BN_ELEMENTS && Val(s, used0) == v0
    && (used0 > 0 ==> s[used0 - 1] != 0) && 0 < k <= MAX_BN_ELEMENTS && Pow(k - 1) <= m < Pow(k)
  }

  /** The length of the first value, compared with that of the modulus. */
  lemma StartLength(s: seq<uint32>, v0: int, used0: nat, m: int, k: nat)
    requires Start(s, v0, used0, m, k)
    ensures v0 >= m ==> used0 >= k
    ensures v0 < m ==> used0 <= k
    ensures v0 == 0 <==> used0 == 0
    ensures Val(s, MAX_BN_ELEMENTS) == v0 + Stale(s, used0)
  {
    ValBound(s, used0);
    if used0 > 0 {
      AtLeastTop(s, used0);
    }
    if used0 < k {
      PowMono(used0, k - 1);
    } else if used0 > k {
      PowMono(k, used0 - 1);
    }
  }

  /** The value of the whole buffer on the way down. */
  lemma DownValue(r: KcBignum, m: int, v: int, s: seq<uint32>, used0: nat)
    requires |s| == MAX_BN_ELEMENTS && InMode(Down, r, m, v, s, used0)
    ensures Val(r.limbs, MAX_BN_ELEMENTS) == v + Stale(s, used0)
  {
    StaleBeyond(r.limbs, r.used, used0);
    StaleCong(r.limbs, s, used0);
  }

  /** A round from a buffer that does not compare as smaller. */
  lemma HistoryStep(mode: Mode, r: KcBignum, s: seq<uint32>, v0: int, used0: nat, m: int, k: nat, v: int, count: nat)
    requires Start(s, v0, used0, m, k) && m > 0 && v0 >= 0 && InMode(mode, r, m, v, s, used0)
    requires History(mode, s, v0, used0, m, k, v, count) && Val(r.limbs, MAX_BN_ELEMENTS) >= m
    ensures History(NextMode(mode, r.limbs, v, m, k), s, v0, used0, m, k, v - m, count + 1)
  {
    DistributeSum(count, 1, m);
    StartLength(s, v0, used0, m, k);
    if mode == Down {
      DownValue(r, m, v, s, used0);
      FirstRound(v0, m, v, count);
      StaleRange(s, used0);
      if v == m {
        DivModUnique(v0, m, count + 1, 0);
      } else if 0 < v < m {
        if ZeroFrom(r.limbs, k, MAX_BN_ELEMENTS) {
          OnlyOneRound(r, s, used0, k);
        }
      }
    }
  }

  /** The count of rounds on the way down. */
  lemma FirstRound(v0: int, m: int, v: int, count: nat)
    requires m > 0 && v == v0 - count * m && v >= 0 && v0 >= 0
    ensures v0 < m ==> count == 0 && v == v0
    ensures v < m ==> count == v0 / m && v == v0 % m
  {
    if count >= 1 {
      MulLe(1, count, m);
    }
    if v < m {
      DivModUnique(v0, m, count, v);
    }
  }

  /** Stale limbs that lie below the length of the modulus only. */
  lemma OnlyOneRound(r: KcBignum, s: seq<uint32>, used0: nat, k: nat)
    requires |s| == |r.limbs| == MAX_BN_ELEMENTS && k <= MAX_BN_ELEMENTS && used0 <= MAX_BN_ELEMENTS
    requires forall i :: used0 <= i < MAX_BN_ELEMENTS ==> r.limbs[i] == s[i]
    requires ZeroFrom(r.limbs, k, MAX_BN_ELEMENTS) && !ZeroFrom(s, used0, MAX_BN_ELEMENTS)
    ensures used0 < k && ZeroFrom(s, k, MAX_BN_ELEMENTS)
  {
  }

  /** The loop ends well in the states that it should. */
  lemma HistoryEnd(mode: Mode, r: KcBignum, s: seq<uint32>, v0: int, used0: nat, m: int, k: nat, v: int, count: nat)
    requires Start(s, v0, used0, m, k) && m > 0 && v0 >= 0 && InMode(mode, r, m, v, s, used0) && count <= 11
    requires History(mode, s, v0, used0, m, k, v, count) && Val(r.limbs, MAX_BN_ELEMENTS) < m
    ensures Corrects(s, v0, used0, m, k) && v == Corrected(s, v0, m)
  {
    StartLength(s, v0, used0, m, k);
    if mode == Down {
      DownValue(r, m, v, s, used0);
      FirstRound(v0, m, v, count);
      StaleRange(s, used0);
      DownEnds(s, v0, used0, m, k, v, Pow(k), Pow(used0));
    } else {
      TurnedEnds(s, v0, m);
    }
  }

  lemma TurnedEnds(s: seq<uint32>, v0: int, m: int)
    requires |s| == MAX_BN_ELEMENTS && 0 < v0 < m <= Val(s, MAX_BN_ELEMENTS)
    ensures Corrected(s, v0, m) == v0 - 1 * m
  {
  }

  lemma DownEnds(s: seq<uint32>, v0: int, used0: nat, m: int, k: nat, v: int, p: int, q: int)
    requires Start(s, v0, used0, m, k) && 0 < m < p && v0 >= 0 && p == Pow(k) && q == Pow(used0)
    requires v == v0 % m && v0 / m <= 11 && (v == 0 ==> used0 == 0) && (v0 == 0 <==> used0 == 0)
    requires (v0 >= m ==> used0 >= k) && (v0 < m ==> used0 <= k)
    requires Val(s, MAX_BN_ELEMENTS) == v0 + Stale(s, used0) && 0 <= Stale(s, used0) && v + Stale(s, used0) < m
    requires Stale(s, used0) == 0 <==> ZeroFrom(s, used0, MAX_BN_ELEMENTS)
    requires Stale(s, used0) == 0 || Stale(s, used0) >= q
    ensures Corrects(s, v0, used0, m, k) && v == Corrected(s, v0, m)
  {
    if v0 >= m {
      PowMono(k, used0);
    } else {
      DivModUnique(v0, m, 0, v0);
      StaleRange(s, k);
    }
  }

  /** It gives up in the states that it should. */
  lemma HistoryStuck(mode: Mode, r: KcBignum, s: seq<uint32>, v0: int, used0: nat, m: int, k: nat, v: int)
    requires Start(s, v0, used0, m, k) && m > 0 && v0 >= 0 && InMode(mode, r, m, v, s, used0)
    requires History(mode, s, v0, used0, m, k, v, 11) && Val(r.limbs, MAX_BN_ELEMENTS) >= m
    ensures !Corrects(s, v0, used0, m, k)
  {
    StartLength(s, v0, used0, m, k);
    if mode == Down {
      DownValue(r, m, v, s, used0);
      FirstRound(v0, m, v, 11);
      StaleRange(s, used0);
      TooManyRounds(v0, m, v);
    }
  }

  lemma TooManyRounds(v0: int, m: int, v: int)
    requires m > 0 && v == v0 - 11 * m && v >= 0
    ensures v0 >= m && (v >= m ==> v0 / m > 11)
  {
    var q := v0 / m;
    assert v0 == q * m + v0 % m;
    if q <= 11 {
      MulLe(q, 11, m);
    }
  }

  ghost predicate InState(mode: Mode, r: KcBignum, s: seq<uint32>, v0: int, used0: nat, m: int, k: nat, v: int,
                          count: nat)
    reads r, r.data
  {
    && Start(s, v0, used0, m, k) && m > 0 && 0 <= v0 < Pow(k + 1)
    && InMode(mode, r, m, v, s, used0) && History(mode, s, v0, used0, m, k, v, count)
  }

  /** The state after `count` rounds from a buffer with the limbs `s`. A proof that does not mention `InState` takes it
      as a whole. */
  ghost predicate Reached(mode: Mode, r: KcBignum, s: seq<uint32>, v0: int, used0: nat, m: int, k: nat, v: int,
                          count: nat)
    reads r, r.data
  {
    forall c :: c == count ==> InState(mode, r, s, v0, used0, m, k, v, c)
  }

  lemma FirstState(r: KcBignum, m: int, k: nat)
    requires r.Valid() && r.Trimmed() && r.sign == 0 && Proper(r.limbs, MAX_BN_ELEMENTS) && r.Abs() < Pow(k + 1)
    requires 0 < k <= MAX_BN_ELEMENTS && 0 < m < Pow(k) && m >= Pow(k - 1)
    ensures Reached(Down, r, r.limbs, r.Abs(), r.used, m, k, r.Abs(), 0)
  {
    StartLength(r.limbs, r.Abs(), r.used, m, k);
  }

  lemma LastState(mode: Mode, r: KcBignum, s: seq<uint32>, v0: int, used0: nat, m: int, k: nat, v: int, count: nat)
    requires Reached(mode, r, s, v0, used0, m, k, v, count) && count <= 11
    requires |s| == |r.limbs| == MAX_BN_ELEMENTS && m > 0
    ensures r.used <= MAX_BN_ELEMENTS && r.Trimmed() && r.Value() == v == v0 - count * m
    ensures Val(r.limbs, MAX_BN_ELEMENTS) < m ==> Corrects(s, v0, used0, m, k) && v == Corrected(s, v0, m)
    ensures Val(r.limbs, MAX_BN_ELEMENTS) >= m && count == 11 ==> !Corrects(s, v0, used0, m, k)
  {
    assert InState(mode, r, s, v0, used0, m, k, v, count);
    if Val(r.limbs, MAX_BN_ELEMENTS) < m {
      HistoryEnd(mode, r, s, v0, used0, m, k, v, count);
    } else if count == 11 {
      HistoryStuck(mode, r, s, v0, used0, m, k, v);
    }
  }

  /**
   The correction loop. It subtracts the modulus as often as it goes into the value, or once too often; and it ends well
   exactly when the stale limbs of the buffer let it.
  */
  method CorrectRemainder(r: KcBignum, m: KcBignum) returns (status: Status, ghost count: nat)
    requires m.Valid() && m.Trimmed() && m.sign == 0 && m.Clean() && Separate(r, m)
    requires 0 < m.used && m.used + 2 <= MAX_BN_ELEMENTS && m.Abs() >= Pow(m.used - 1)
    requires r.Valid() && r.Trimmed() && r.sign == 0 && Proper(r.limbs, MAX_BN_ELEMENTS) && r.Abs() < Pow(m.used + 1)
    modifies r, r.data
    ensures r.Valid() && m.Abs() > 0
    ensures status == if old(Corrects(r.limbs, r.Abs(), r.used, m.Abs(), m.used)) then Ok else BadBignumber
    ensures status == Ok ==> r.Trimmed() && r.Value() == old(Corrected(r.limbs, r.Abs(), m.Abs()))
    ensures status == Ok ==> r.Value() == old(r.Abs()) - count * m.Abs()
  {
    ValBound(m.limbs, m.used);
    FirstState(r, m.Abs(), m.used);
    status, count := CorrectionLoop(r, m, r.limbs, r.Abs(), r.used);
    Trim(r);
  }

  /** The loop, from a buffer with the limbs `s`. */
  method CorrectionLoop(r: KcBignum, m: KcBignum, ghost s: seq<uint32>, ghost v0: int, ghost used0: nat)
    returns (status: Status, ghost count: nat)
    requires m.Valid() && m.Trimmed() && m.sign == 0 && m.Clean() && Separate(r, m)
    requires 0 < m.used && m.used + 2 <= MAX_BN_ELEMENTS && m.Abs() > 0 && |s| == MAX_BN_ELEMENTS
    requires r.Valid() && Proper(r.limbs, MAX_BN_ELEMENTS)
    requires Reached(Down, r, s, v0, used0, m.Abs(), m.used, v0, 0)
    modifies r, r.data
    ensures r.Valid() && (status == Ok || status == BadBignumber)
    ensures status == Ok <==> Corrects(s, v0, used0, m.Abs(), m.used)
    ensures status == Ok ==> r.Trimmed() && r.Value() == Corrected(s, v0, m.Abs()) == v0 - count * m.Abs()
  {
    ghost var M, k, mode, v := m.Abs(), m.used, Down, v0;
    count := 0;
    ValZeroTail(m.limbs, k, MAX_BN_ELEMENTS);
    status := Ok;
    var compare := SecureCompare(r, m);
    var rounds := 0;
    while compare != BN_SMALLER
      invariant status == Ok && 0 <= rounds == count <= 11
      invariant r.Valid() && Proper(r.limbs, MAX_BN_ELEMENTS)
      invariant Reached(mode, r, s, v0, used0, M, k, v, count)
      invariant compare == Order(Val(r.limbs, MAX_BN_ELEMENTS), M)
      decreases 11 - rounds
    {
      rounds := rounds + 1;
      if rounds - 1 > 10 {
        LastState(mode, r, s, v0, used0, M, k, v, count);
        return BadBignumber, count;
      }
      status, compare, mode := CorrectOnce(r, m, mode, v, s, v0, used0, count);
      v, count := v - M, count + 1;
    }
    LastState(mode, r, s, v0, used0, M, k, v, count);
  }

  /** A subtraction and the next comparison. */
  method CorrectOnce(r: KcBignum, m: KcBignum, ghost mode: Mode, ghost v: int, ghost s: seq<uint32>, ghost v0: int,
                     ghost used0: nat, ghost count: nat) returns (status: Status, compare: uint32, ghost next: Mode)
    requires m.Valid() && m.Trimmed() && m.sign == 0 && m.Clean() && Separate(r, m)
    requires 0 < m.used && m.used + 2 <= MAX_BN_ELEMENTS && m.Abs() > 0 && count <= 10
    requires r.Valid() && |s| == MAX_BN_ELEMENTS && Reached(mode, r, s, v0, used0, m.Abs(), m.used, v, count)
    requires Val(r.limbs, MAX_BN_ELEMENTS) >= m.Abs()
    modifies r, r.data
    ensures status == Ok && r.Valid() && Proper(r.limbs, MAX_BN_ELEMENTS)
    ensures Reached(next, r, s, v0, used0, m.Abs(), m.used, v - m.Abs(), count + 1)
    ensures compare == Order(Val(r.limbs, MAX_BN_ELEMENTS), m.Abs())
  {
    ghost var M, k := m.Abs(), m.used;
    assert InState(mode, r, s, v0, used0, M, k, v, count);
    HistoryStep(mode, r, s, v0, used0, M, k, v, count);
    next := NextMode(mode, r.limbs, v, M, k);
    MulLe(count, 11, M);
    MulLe(0, count, M);
    status := SubtractModulus(r, m, mode, v, s, used0);
    ValZeroTail(m.limbs, m.used, MAX_BN_ELEMENTS);
    compare := SecureCompare(r, m);
  }
}
