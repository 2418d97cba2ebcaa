/** The canonical limbs of an integer. */
module LimbDigits {
  import opened Word
  import opened Limbs

  /** The number of limbs of a value in canonical form. */
  function LimbCount(v: nat): (n: nat)
    ensures n > 0 <==> v > 0
  {
    if v == 0 then 0 else 1 + LimbCount(v / BASE)
  }

  /** The limbs of a value, without leading zeros. */
  function Digits(v: nat): (s: seq<uint32>)
    ensures |s| == LimbCount(v)
  {
    if v == 0 then [] else [v % BASE] + Digits(v / BASE)
  }

  lemma {:induction false} DigitsValue(v: nat)
    ensures Proper(Digits(v), LimbCount(v)) && Val(Digits(v), LimbCount(v)) == v
    ensures v > 0 ==> Digits(v)[LimbCount(v) - 1] != 0
  {
    if v > 0 {
      var s, t, n := Digits(v), Digits(v / BASE), LimbCount(v);
      DigitsValue(v / BASE);
      assert s[1..] == t && forall i :: 0 < i < n ==> s[i] == t[i - 1];
      ValSplit(s, 1, n);
      assert Pow(1) == BASE * Pow(0) && Val(s, 1) == Val(s, 0) + s[0] * Pow(0);
    }
  }

  /** A canonical numeral is determined by its value. */
  lemma {:induction false} DigitsUnique(s: seq<uint32>, n: nat)
    requires n <= |s| && Proper(s, n) && (n > 0 ==> s[n - 1] != 0)
    ensures LimbCount(Val(s, n)) == n && Digits(Val(s, n)) == s[..n]
  {
    if n > 0 {
      ValSplit(s, 1, n);
      assert Pow(1) == BASE * Pow(0) && Val(s, 1) == Val(s, 0) + s[0] * Pow(0);
      var t := s[1..];
      DivModUnique(Val(s, n), BASE, Val(t, n - 1), s[0]);
      ValLower(s, n - 1, n);
      MulLe(1, s[n - 1], Pow(n - 1));
      if n > 1 {
        assert t[n - 2] == s[n - 1];
      }
      DigitsUnique(t, n - 1);
      assert s[..n] == [s[0]] + t[..n - 1];
    }
  }
}
