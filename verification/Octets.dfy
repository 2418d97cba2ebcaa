/** Little-endian octet strings, and the 32-bit words read from and written to them. */
module Octets {
  import opened Word
  import opened Limbs

  function Pow256(n: nat): (p: int)
    ensures p > 0
  {
    if n == 0 then 1 else 256 * Pow256(n - 1)
  }

  /** The integer denoted by the `n` lowest octets. */
  function OctetVal(s: seq<uint8>, n: nat): (v: int)
    requires n <= |s|
    ensures v >= 0
  {
    if n == 0 then 0 else OctetVal(s, n - 1) + s[n - 1] * Pow256(n - 1)
  }

  function WordAt(s: seq<uint8>, i: nat): uint32
    requires i + 4 <= |s|
  {
    s[i] + 0x100 * s[i + 1] as int + 0x1_0000 * s[i + 2] as int + 0x100_0000 * s[i + 3] as int
  }

  function PowWord(n: nat): (p: int)
    ensures p > 0
  {
    if n == 0 then 1 else 0x1_0000_0000 * PowWord(n - 1)
  }

  /** The integer denoted by the `c` lowest words. */
  function WordVal(s: seq<uint8>, c: nat): (v: int)
    requires 4 * c <= |s|
    ensures v >= 0
  {
    if c == 0 then 0 else WordVal(s, c - 1) + WordAt(s, 4 * (c - 1)) * PowWord(c - 1)
  }

  lemma {:induction false} PowWordOctets(c: nat)
    ensures PowWord(c) == Pow256(4 * c)
  {
    if c > 0 {
      PowWordOctets(c - 1);
      var n := 4 * (c - 1);
      assert Pow256(n + 4) == 256 * Pow256(n + 3) == 0x1_0000 * Pow256(n + 2) == 0x100_0000 * Pow256(n + 1);
      assert 4 * c == n + 4;
    }
  }

  /** Words and octets denote the same integer. */
  lemma {:induction false} WordsAreOctets(s: seq<uint8>, c: nat)
    requires 4 * c <= |s|
    ensures WordVal(s, c) == OctetVal(s, 4 * c)
  {
    if c > 0 {
      WordsAreOctets(s, c - 1);
      PowWordOctets(c - 1);
      var n := 4 * (c - 1);
      FourOctets(s, n);
      assert 4 * c == n + 4;
    }
  }

  lemma FourOctets(s: seq<uint8>, n: nat)
    requires n + 4 <= |s|
    ensures OctetVal(s, n + 4) == OctetVal(s, n) + WordAt(s, n) * Pow256(n)
  {
    var p := Pow256(n);
    assert Pow256(n + 1) == 256 * p && Pow256(n + 2) == 0x1_0000 * p && Pow256(n + 3) == 0x100_0000 * p;
    assert OctetVal(s, n + 1) == OctetVal(s, n) + s[n] * p;
    assert OctetVal(s, n + 2) == OctetVal(s, n + 1) + s[n + 1] * (256 * p);
    assert OctetVal(s, n + 3) == OctetVal(s, n + 2) + s[n + 2] * (0x1_0000 * p);
    assert OctetVal(s, n + 4) == OctetVal(s, n + 3) + s[n + 3] * (0x100_0000 * p);
    Gather(s[n], s[n + 1], s[n + 2], s[n + 3], p);
  }

  lemma Gather(a: int, b: int, c: int, d: int, p: int)
    ensures a * p + b * (256 * p) + c * (0x1_0000 * p) + d * (0x100_0000 * p)
              == (a + 0x100 * b + 0x1_0000 * c + 0x100_0000 * d) * p
  {
  }

  lemma {:induction false} OctetCong(s: seq<uint8>, t: seq<uint8>, n: nat)
    requires n <= |s| && n <= |t| && forall i :: 0 <= i < n ==> s[i] == t[i]
    ensures OctetVal(s, n) == OctetVal(t, n)
  {
    if n > 0 {
      OctetCong(s, t, n - 1);
    }
  }

  lemma {:induction false} OctetBound(s: seq<uint8>, n: nat)
    requires n <= |s|
    ensures OctetVal(s, n) < Pow256(n)
  {
    if n > 0 {
      OctetBound(s, n - 1);
      MulLe(s[n - 1], 255, Pow256(n - 1));
    }
  }

  lemma {:induction false} OctetZeroTail(s: seq<uint8>, n: nat, m: nat)
    requires n <= m <= |s| && forall i :: n <= i < m ==> s[i] == 0
    ensures OctetVal(s, m) == OctetVal(s, n)
    decreases m
  {
    if n < m {
      OctetZeroTail(s, n, m - 1);
    }
  }

  lemma {:induction false} WordCong(s: seq<uint8>, t: seq<uint8>, c: nat)
    requires 4 * c <= |s| && 4 * c <= |t| && forall i :: 0 <= i < 4 * c ==> s[i] == t[i]
    ensures WordVal(s, c) == WordVal(t, c)
  {
    if c > 0 {
      WordCong(s, t, c - 1);
    }
  }

  lemma SplitWord(v: uint32)
    ensures v == v % 0x100 + 0x100 * (v / 0x100 % 0x100) + 0x1_0000 * (v / 0x1_0000 % 0x100)
               + 0x100_0000 * (v / 0x100_0000)
    ensures v / 0x100_0000 < 0x100
  {
    var a := v / 0x100;
    var b := a / 0x100;
    assert b == v / 0x1_0000;
    assert b / 0x100 == v / 0x100_0000;
  }

  lemma JoinWord(a: uint8, b: uint8, c: uint8, d: uint8, v: uint32)
    requires v == a + 0x100 * b as int + 0x1_0000 * c as int + 0x100_0000 * d as int
    ensures a == v % 0x100 && b == v / 0x100 % 0x100 && c == v / 0x1_0000 % 0x100 && d == v / 0x100_0000 % 0x100
  {
    var high := b as int + 0x100 * c as int + 0x1_0000 * d as int;
    assert v / 0x100 == high;
    assert high / 0x100 == c as int + 0x100 * d as int;
    assert v / 0x1_0000 == c as int + 0x100 * d as int;
    assert v / 0x100_0000 == d;
  }

  /** Stores a 32-bit word. */
  method PutWord(out: array<uint8>, i: nat, v: uint32)
    requires i + 4 <= out.Length
    modifies out
    ensures WordAt(out[..], i) == v
    ensures forall k :: 0 <= k < out.Length && !(i <= k < i + 4) ==> out[k] == old(out[k])
  {
    SplitWord(v);
    out[i] := v % 0x100;
    out[i + 1] := v / 0x100 % 0x100;
    out[i + 2] := v / 0x1_0000 % 0x100;
    out[i + 3] := v / 0x100_0000;
  }
}
