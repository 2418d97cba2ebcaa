/** Exclusive or of octets and of octet strings. */
module OctetXor {
  import opened Word
  import opened Limbs
  import opened Bits

  lemma {:induction false} XorBits(a: nat, b: nat, n: nat)
    requires a < Pow2(n) && b < Pow2(n)
    ensures Xor(a, b) < Pow2(n)
  {
    if n > 0 && (a != 0 || b != 0) {
      XorBits(a / 2, b / 2, n - 1);
    }
  }

  /** The exclusive or of two octets is an octet. */
  lemma XorBound(a: uint8, b: uint8)
    ensures Xor(a, b) < 256
  {
    XorBits(a, b, 8);
    assert Pow2(8) == 256;
  }

  lemma {:induction false} XorTwice(a: nat, b: nat)
    ensures Xor(Xor(a, b), b) == a
    decreases a + b
  {
    if a != 0 || b != 0 {
      var half := Xor(a / 2, b / 2);
      XorTwice(a / 2, b / 2);
      XorStep(a, b, half);
    }
  }

  lemma XorStep(a: nat, b: nat, half: nat)
    requires (a != 0 || b != 0) && half == Xor(a / 2, b / 2) && Xor(half, b / 2) == a / 2
    ensures Xor(Xor(a, b), b) == a
  {
    var x := Xor(a, b);
    XorUnfold(a, b);
    Parity(a % 2, b % 2, half, x);
    XorUnfold(x, b);
  }

  lemma XorUnfold(a: nat, b: nat)
    ensures Xor(a, b) == (a % 2 + b % 2) % 2 + 2 * Xor(a / 2, b / 2)
  {
  }

  lemma Parity(p: nat, q: nat, h: nat, x: nat)
    requires p < 2 && q < 2 && x == (p + q) % 2 + 2 * h
    ensures x % 2 == (p + q) % 2 && x / 2 == h && (x % 2 + q) % 2 == p
  {
  }

  /** Bit by bit. */
  lemma {:induction false} XorBit(a: nat, b: nat, k: nat)
    ensures Bit(Xor(a, b), k) <==> Bit(a, k) != Bit(b, k)
    decreases k
  {
    XorUnfold(a, b);
    Parity(a % 2, b % 2, Xor(a / 2, b / 2), Xor(a, b));
    if k > 0 {
      XorBit(a / 2, b / 2, k - 1);
    }
  }

  /** `r` is the exclusive or of `a` and `b`, bit by bit. */
  ghost predicate BitsDiffer(r: nat, a: nat, b: nat) {
    forall k: nat :: Bit(r, k) <==> Bit(a, k) != Bit(b, k)
  }

  lemma XorOctetBits(a: uint8, b: uint8)
    ensures BitsDiffer(XorOctet(a, b), a, b)
  {
    forall k: nat
      ensures Bit(XorOctet(a, b), k) <==> Bit(a, k) != Bit(b, k)
    {
      XorBit(a, b, k);
    }
  }

  function XorOctet(a: uint8, b: uint8): uint8 {
    XorBound(a, b);
    Xor(a, b)
  }

  /** A string combined with as much of another as it is long. */
  function XorWith(s: seq<uint8>, t: seq<uint8>): (r: seq<uint8>)
    requires |s| <= |t|
    ensures |r| == |s|
  {
    seq(|s|, i requires 0 <= i < |s| => XorOctet(s[i], t[i]))
  }

  lemma XorWithTwice(s: seq<uint8>, t: seq<uint8>)
    requires |s| <= |t|
    ensures XorWith(XorWith(s, t), t) == s
  {
    forall i | 0 <= i < |s|
      ensures XorWith(XorWith(s, t), t)[i] == s[i]
    {
      XorTwice(s[i], t[i]);
    }
  }
}
