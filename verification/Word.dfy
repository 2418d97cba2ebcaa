/** Machine words of the firmware, as bounded integers. */
module Word {
  const TWO_32: int := 0x1_0000_0000
  const TWO_64: int := 0x1_0000_0000_0000_0000

  type uint8 = x: int | 0 <= x < 256
  type uint32 = x: int | 0 <= x < 0x1_0000_0000
  type uint64 = x: int | 0 <= x < 0x1_0000_0000_0000_0000

  /** Truncation to a 32-bit register. */
  function Wrap32(x: int): uint32 {
    x % 0x1_0000_0000
  }

  /** Bitwise exclusive or of two naturals, bit by bit from the least significant one. */
  function Xor(a: nat, b: nat): (r: nat)
    ensures r == 0 <==> a == b
    ensures r <= a + b
    decreases a + b
  {
    if a == 0 && b == 0 then 0 else (a % 2 + b % 2) % 2 + 2 * Xor(a / 2, b / 2)
  }

  /** Bitwise and of two naturals. */
  function BitAnd(a: nat, b: nat): (r: nat)
    ensures r <= a && r <= b
    decreases a + b
  {
    if a == 0 || b == 0 then 0 else (if a % 2 == 1 && b % 2 == 1 then 1 else 0) + 2 * BitAnd(a / 2, b / 2)
  }

  /** Bitwise or of two naturals. */
  function BitOr(a: nat, b: nat): (r: nat)
    ensures r >= a && r >= b && r <= a + b
    decreases a + b
  {
    if a == 0 && b == 0 then 0 else (if a % 2 == 1 || b % 2 == 1 then 1 else 0) + 2 * BitOr(a / 2, b / 2)
  }
}
