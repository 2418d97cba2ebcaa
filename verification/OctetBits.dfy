/** Octets as bit vectors. */
module OctetBits {
  import opened Word

  function Pick(bit: bool, mask: bv8): bv8 {
    if bit then mask else 0
  }

  /** An octet as a bit vector. */
  function ToBits(x: uint8): bv8 {
    Pick(x % 2 == 1, 1) | Pick(x / 2 % 2 == 1, 2) | Pick(x / 4 % 2 == 1, 4) | Pick(x / 8 % 2 == 1, 8)
    | Pick(x / 16 % 2 == 1, 0x10) | Pick(x / 32 % 2 == 1, 0x20) | Pick(x / 64 % 2 == 1, 0x40) | Pick(x / 128 == 1, 0x80)
  }

  lemma PickedBits(b0: bool, b1: bool, b2: bool, b3: bool, b4: bool, b5: bool, b6: bool, b7: bool)
    ensures
      var b := Pick(b0, 1) | Pick(b1, 2) | Pick(b2, 4) | Pick(b3, 8) | Pick(b4, 0x10) | Pick(b5, 0x20) | Pick(b6, 0x40)
               | Pick(b7, 0x80);
      && (b & 1 != 0) == b0 && (b & 2 != 0) == b1 && (b & 4 != 0) == b2 && (b & 8 != 0) == b3
      && (b & 0x10 != 0) == b4 && (b & 0x20 != 0) == b5 && (b & 0x40 != 0) == b6 && (b & 0x80 != 0) == b7
  {
  }

  ghost predicate BitsMatch(b: bv8, x: uint8) {
    && (b & 1 != 0) == (x % 2 == 1) && (b & 2 != 0) == (x / 2 % 2 == 1)
    && (b & 4 != 0) == (x / 4 % 2 == 1) && (b & 8 != 0) == (x / 8 % 2 == 1)
    && (b & 0x10 != 0) == (x / 16 % 2 == 1) && (b & 0x20 != 0) == (x / 32 % 2 == 1)
    && (b & 0x40 != 0) == (x / 64 % 2 == 1) && (b & 0x80 != 0) == (x / 128 == 1)
  }

  lemma BitsOfOctet(x: uint8, b: bv8)
    requires b == ToBits(x)
    ensures BitsMatch(b, x)
  {
    PickedBits(x % 2 == 1, x / 2 % 2 == 1, x / 4 % 2 == 1, x / 8 % 2 == 1,
               x / 16 % 2 == 1, x / 32 % 2 == 1, x / 64 % 2 == 1, x / 128 == 1);
  }

  lemma OctetSum(x: uint8)
    ensures x == x % 2 + 2 * (x / 2 % 2) + 4 * (x / 4 % 2) + 8 * (x / 8 % 2)
                 + 16 * (x / 16 % 2) + 32 * (x / 32 % 2) + 64 * (x / 64 % 2) + 128 * (x / 128)
    ensures 0 <= x / 128 < 2
  {
    var a := x / 2;
    var b := a / 2;
    var c := b / 2;
    var d := c / 2;
    var e := d / 2;
    var f := e / 2;
    assert b == x / 4 && c == x / 8 && d == x / 16 && e == x / 32 && f == x / 64 && f / 2 == x / 128;
  }

  lemma SameDigits(x: uint8, y: uint8)
    requires x % 2 == y % 2 && x / 2 % 2 == y / 2 % 2 && x / 4 % 2 == y / 4 % 2 && x / 8 % 2 == y / 8 % 2
    requires x / 16 % 2 == y / 16 % 2 && x / 32 % 2 == y / 32 % 2 && x / 64 % 2 == y / 64 % 2 && x / 128 == y / 128
    ensures x == y
  {
    OctetSum(x);
    OctetSum(y);
  }

  lemma MatchIsUnique(b: bv8, x: uint8, y: uint8)
    requires BitsMatch(b, x) && BitsMatch(b, y)
    ensures x == y
  {
    OctetSum(x);
    OctetSum(y);
    SameDigits(x, y);
  }

  lemma ToBitsInjective(x: uint8, y: uint8)
    requires ToBits(x) == ToBits(y)
    ensures x == y
  {
    var b := ToBits(x);
    BitsOfOctet(x, b);
    BitsOfOctet(y, b);
    MatchIsUnique(b, x, y);
  }

  function Narrow(s: seq<uint8>): (r: seq<bv8>)
    ensures |r| == |s|
  {
    seq(|s|, i requires 0 <= i < |s| => ToBits(s[i]))
  }
}
