/** Register protection of a VMSA: selected quadwords are combined with a random nonce kept in the VMSA itself. */
module VmsaTweak {
  import opened Word
  import opened Limbs
  import opened OctetXor
  import opened Bits

  const QUADS: nat := 512
  const BITMAP_SIZE: nat := 64
  const NONCE: nat := 0x300 / 8
  const FEATURES: nat := 0x3B0 / 8
  const REG_PROT: nat := 14

  type Bitmap = b: seq<uint8> | |b| == BITMAP_SIZE witness seq(BITMAP_SIZE, i => 0)
  type Vmsa = v: seq<uint64> | |v| == QUADS witness seq(QUADS, i => 0)

  /** Quadword `q` is among those that the bitmap selects. */
  predicate Selected(bitmap: Bitmap, q: nat)
    requires q < QUADS
  {
    Bit(bitmap[q / 8], q % 8)
  }

  function XorQuad(a: uint64, b: uint64): uint64 {
    Pow2Quad();
    XorBits(a, b, 64);
    Xor(a, b)
  }

  lemma Pow2Quad()
    ensures Pow2(64) == TWO_64
  {
    Pow2Word();
    Pow2Add(32, 32);
  }

  /** The VMSA with the selected quadwords combined with the nonce that it holds. */
  function Tweaked(v: Vmsa, bitmap: Bitmap): Vmsa {
    seq(QUADS, q requires 0 <= q < QUADS => if Selected(bitmap, q) then XorQuad(v[q], v[NONCE]) else v[q])
  }

  /** Bit by bit: a bit changes exactly if its quadword is selected, by bit `q % 8` of octet `q / 8`, and the quadword
      at offset 0x300 has that bit. */
  ghost predicate IsTweaked(v: seq<uint64>, t: seq<uint64>, bitmap: Bitmap) {
    && |v| == |t| == 512
    && forall q: nat, k: nat :: q < 512 ==>
         (Bit(t[q], k) <==> Bit(v[q], k) != (Bit(bitmap[q / 8], q % 8) && Bit(v[96], k)))
  }

  lemma TweakedBits(v: Vmsa, bitmap: Bitmap)
    ensures IsTweaked(v, Tweaked(v, bitmap), bitmap)
  {
    var t := Tweaked(v, bitmap);
    forall q: nat, k: nat | q < 512
      ensures Bit(t[q], k) <==> Bit(v[q], k) != (Bit(bitmap[q / 8], q % 8) && Bit(v[96], k))
    {
      XorBit(v[q], v[96], k);
    }
  }

  /**
   * Applying a bitmap twice restores every VMSA exactly when the bitmap leaves the nonce alone: a bitmap that selects
   * the nonce clears it, and the second application then does nothing.
   */
  lemma TweakTwice(bitmap: Bitmap)
    ensures !Selected(bitmap, NONCE) <==> forall v: Vmsa :: Tweaked(Tweaked(v, bitmap), bitmap) == v
  {
    if !Selected(bitmap, NONCE) {
      forall v: Vmsa
        ensures Tweaked(Tweaked(v, bitmap), bitmap) == v
      {
        RestoredBy(v, bitmap);
      }
    } else {
      var v: Vmsa := seq(QUADS, i => 1);
      assert Tweaked(v, bitmap)[NONCE] == 0;
      assert Tweaked(Tweaked(v, bitmap), bitmap)[NONCE] == 0;
    }
  }

  lemma RestoredBy(v: Vmsa, bitmap: Bitmap)
    requires !Selected(bitmap, NONCE)
    ensures Tweaked(Tweaked(v, bitmap), bitmap) == v
  {
    var once := Tweaked(v, bitmap);
    forall q | 0 <= q < QUADS
      ensures Tweaked(once, bitmap)[q] == v[q]
    {
      XorTwice(v[q], v[NONCE]);
    }
  }

  /** Combine the selected quadwords with the nonce, in place. */
  method ApplyBitmap(vmsa: array<uint64>, bitmap: Bitmap)
    requires vmsa.Length == QUADS
    modifies vmsa
    ensures vmsa[..] == Tweaked(old(vmsa[..]), bitmap) && IsTweaked(old(vmsa[..]), vmsa[..], bitmap)
  {
    ghost var was: Vmsa, goal: Vmsa := vmsa[..], Tweaked(vmsa[..], bitmap);
    var tweak := vmsa[NONCE];
    var quad := 0;
    for i := 0 to BITMAP_SIZE
      invariant quad == 8 * i
      invariant forall k :: 0 <= k < quad ==> vmsa[k] == goal[k]
      invariant forall k :: quad <= k < QUADS ==> vmsa[k] == was[k]
    {
      var octet := bitmap[i];
      for b := 0 to 8
        invariant quad == 8 * i + b
        invariant forall k :: 0 <= k < quad ==> vmsa[k] == goal[k]
        invariant forall k :: quad <= k < QUADS ==> vmsa[k] == was[k]
      {
        AndPower(octet, b);
        Position(i, b, quad);
        if BitAnd(octet, Pow2(b)) != 0 {
          vmsa[quad] := XorQuad(vmsa[quad], tweak);
        }
        quad := quad + 1;
      }
    }
    assert vmsa[..] == goal;
    TweakedBits(was, bitmap);
  }

  lemma Position(i: nat, b: nat, quad: nat)
    requires b < 8 && quad == 8 * i + b
    ensures quad / 8 == i && quad % 8 == b
  {
  }

  /** A row of eight octets of the built-in bitmap. */
  function Row(r: nat): (octets: seq<uint8>)
    requires r < 8
    ensures |octets| == 8
  {
    match r
    case 0 => [0x00, 0x00, 0x00, 0x00, 0x00, 0x80, 0x00, 0x88]
    case 1 => [0x00, 0x00, 0x00, 0x00, 0xEE, 0xFF, 0x00, 0x00]
    case 2 => [0xF0, 0xFF, 0xFF, 0xFF, 0xFF, 0xFF, 0xFF, 0xFF]
    case 3 => [0xFF, 0x3F, 0x00, 0x00, 0x00, 0x00, 0x00, 0x00]
    case 4 => [0x00, 0x00, 0x00, 0x00, 0x00, 0x00, 0xFF, 0xFF]
    case 7 => [0xFF, 0xFF, 0xFF, 0xFF, 0xFF, 0xFF, 0xFF, 0x00]
    case _ => [0xFF, 0xFF, 0xFF, 0xFF, 0xFF, 0xFF, 0xFF, 0xFF]
  }

  /** The built-in bitmap. */
  function BuiltIn(): Bitmap {
    seq(BITMAP_SIZE, i requires 0 <= i < BITMAP_SIZE => Row(i / 8)[i % 8])
  }

  const REGISTERS: nat := 23

  /** Offset in the VMSA and size, both in octets, of each protected register. */
  function Register(i: nat): (nat, nat)
    requires i < REGISTERS
  {
    match i
    case 0 => (0x1F8, 8)
    case 1 => (0x318, 8)
    case 2 => (0x308, 8)
    case 3 => (0x310, 8)
    case 4 => (0x328, 8)
    case 5 => (0x330, 8)
    case 6 => (0x338, 8)
    case 7 => (0x1D8, 8)
    case 16 => (0x178, 8)
    case 17 => (0x420, 80)
    case 18 => (0x470, 256)
    case 19 => (0x570, 256)
    case 20 => (0x980, 64)
    case 21 => (0x9C0, 512)
    case 22 => (0xBC0, 1024)
    case _ => (0x340 + 8 * (i - 8), 8)
  }

  /** Quadword `q` belongs to register `i`. */
  predicate PartOf(i: nat, q: nat)
    requires i < REGISTERS
  {
    Register(i).0 <= 8 * q < Register(i).0 + Register(i).1
  }

  /** Quadword `q` belongs to one of the first `n` registers. */
  predicate InFirst(n: nat, q: nat)
    requires n <= REGISTERS
  {
    exists i :: 0 <= i < n && PartOf(i, q)
  }

  predicate Protected(q: nat) {
    InFirst(REGISTERS, q)
  }

  predicate InBand(q: nat) {
    q == 47 || q == 59 || q == 63 || 97 <= q <= 99 || 101 <= q <= 111 || 132 <= q <= 205 || 304 <= q <= 503
  }

  lemma Bands(q: nat)
    ensures Protected(q) == InBand(q)
  {
    if InBand(q) {
      var i := if q == 47 then 16 else if q == 59 then 7 else if q == 63 then 0 else if q == 99 then 1
               else if q <= 98 then q - 95 else if q <= 103 then q - 97 else if q <= 111 then q - 96
               else if q <= 141 then 17 else if q <= 173 then 18 else if q <= 205 then 19
               else if q <= 311 then 20 else if q <= 375 then 21 else 22;
      assert PartOf(i, q);
    }
  }

  lemma OctetPattern(b: nat)
    requires b < 8
    ensures !Bit(0, b) && Bit(0xFF, b) && Bit(0x80, b) == (b == 7) && Bit(0x88, b) == (b == 3 || b == 7)
    ensures Bit(0xEE, b) == (b != 0 && b != 4) && Bit(0xF0, b) == (b >= 4) && Bit(0x3F, b) == (b < 6)
  {
    match b
    case 0 =>
    case 1 =>
    case 2 =>
    case 3 =>
    case 4 =>
    case 5 =>
    case 6 =>
    case 7 =>
  }

  lemma RowOfBand(r: nat, c: nat, b: nat)
    requires r < 8 && c < 8 && b < 8
    ensures Bit(Row(r)[c], b) == InBand(64 * r + 8 * c + b)
  {
    OctetPattern(b);
    match r
    case 0 =>
    case 1 =>
    case 2 =>
    case 3 =>
    case 4 =>
    case 5 =>
    case 6 =>
    case 7 =>
  }

  /** The built-in bitmap selects exactly the quadwords of the protected registers. */
  lemma BuiltInIsRegisters(q: nat)
    requires q < QUADS
    ensures Selected(BuiltIn(), q) == Protected(q)
  {
    var i := q / 8;
    var r, c, b := i / 8, i % 8, q % 8;
    RowOfBand(r, c, b);
    Bands(q);
  }

  method MarkQuad(bitmap: array<uint8>, quad: nat)
    requires bitmap.Length == BITMAP_SIZE && quad < QUADS
    modifies bitmap
    ensures forall q :: 0 <= q < QUADS ==> Selected(bitmap[..], q) == (old(Selected(bitmap[..], q)) || q == quad)
  {
    ghost var was := bitmap[..];
    var octet, bit := quad / 8, quad % 8;
    Pow2Mono(bit + 1, 8);
    assert Pow2(8) == 256;
    OrBound(bitmap[octet], Pow2(bit), 8);
    bitmap[octet] := BitOr(bitmap[octet], Pow2(bit));
    forall q | 0 <= q < QUADS
      ensures Selected(bitmap[..], q) == (Selected(was, q) || q == quad)
    {
      if q / 8 == octet {
        OrBit(was[octet], Pow2(bit), q % 8);
        PowerBit(bit, q % 8);
      }
    }
  }

  /** The bitmap computed from the table of registers is the built-in one. */
  method BuildBitmap() returns (bitmap: array<uint8>)
    ensures bitmap[..] == BuiltIn()
  {
    bitmap := new uint8[BITMAP_SIZE](_ => 0);
    forall q | 0 <= q < QUADS
      ensures !Selected(bitmap[..], q)
    {
      ZeroBit(q % 8);
    }
    for i := 0 to REGISTERS
      invariant fresh(bitmap) && bitmap.Length == BITMAP_SIZE
      invariant forall q :: 0 <= q < QUADS ==> Selected(bitmap[..], q) == InFirst(i, q)
    {
      MarkRegister(bitmap, i);
    }
    BitmapUnique(bitmap[..]);
  }

  method MarkRegister(bitmap: array<uint8>, i: nat)
    requires bitmap.Length == BITMAP_SIZE && i < REGISTERS
    requires forall q :: 0 <= q < QUADS ==> Selected(bitmap[..], q) == InFirst(i, q)
    modifies bitmap
    ensures forall q :: 0 <= q < QUADS ==> Selected(bitmap[..], q) == InFirst(i + 1, q)
  {
    var (start, size) := Register(i);
    Aligned(i);
    var first := start / 8;
    var j := 0;
    while j < size
      invariant 0 <= j <= size && j % 8 == 0
      invariant forall q :: 0 <= q < QUADS ==> Selected(bitmap[..], q) == (InFirst(i, q) || first <= q < first + j / 8)
    {
      MarkQuad(bitmap, (start + j) / 8);
      j := j + 8;
    }
    forall q | 0 <= q < QUADS
      ensures Selected(bitmap[..], q) == InFirst(i + 1, q)
    {
      OneMore(i, q);
    }
  }

  lemma OneMore(i: nat, q: nat)
    requires i < REGISTERS
    ensures InFirst(i + 1, q) == (InFirst(i, q) || Register(i).0 / 8 <= q < Register(i).0 / 8 + Register(i).1 / 8)
  {
    Aligned(i);
    if PartOf(i, q) {
    } else if InFirst(i + 1, q) {
      var j :| 0 <= j < i + 1 && PartOf(j, q);
      assert j < i;
    }
  }

  lemma Aligned(i: nat)
    requires i < REGISTERS
    ensures Register(i).0 % 8 == 0 && Register(i).1 % 8 == 0 && Register(i).0 + Register(i).1 <= 8 * QUADS
  {
  }

  lemma BitmapUnique(bitmap: seq<uint8>)
    requires |bitmap| == BITMAP_SIZE
    requires forall q :: 0 <= q < QUADS ==> Selected(bitmap, q) == InFirst(REGISTERS, q)
    ensures bitmap == BuiltIn()
  {
    var builtIn := BuiltIn();
    forall i | 0 <= i < BITMAP_SIZE
      ensures bitmap[i] == builtIn[i]
    {
      OctetUnique(bitmap, builtIn, i);
    }
  }

  lemma OctetUnique(bitmap: Bitmap, other: Bitmap, i: nat)
    requires i < BITMAP_SIZE && other == BuiltIn()
    requires forall q :: 0 <= q < QUADS ==> Selected(bitmap, q) == InFirst(REGISTERS, q)
    ensures bitmap[i] == other[i]
  {
    assert Pow2(8) == 256;
    forall b | 0 <= b < 8
      ensures Bit(bitmap[i], b) == Bit(other[i], b)
    {
      BitUnique(bitmap, other, i, b, 8 * i + b);
    }
    SameBits(bitmap[i], other[i], 8);
  }

  lemma BitUnique(bitmap: Bitmap, other: Bitmap, i: nat, b: nat, q: nat)
    requires i < BITMAP_SIZE && b < 8 && q == 8 * i + b && other == BuiltIn()
    requires Selected(bitmap, q) == Protected(q)
    ensures Bit(bitmap[i], b) == Bit(other[i], b)
  {
    BuiltInIsRegisters(q);
    Position(i, b, q);
  }

  predicate ProtectionEnabled(v: Vmsa) {
    Bit(v[FEATURES], REG_PROT)
  }

  /** Draw a nonce and combine the selected registers with it, if the VMSA asks for register protection. */
  method XorTweak(vmsa: array<uint64>, bitmap: Bitmap, trngOk: bool, random: uint64) returns (ok: bool)
    requires vmsa.Length == QUADS
    modifies vmsa
    ensures ok == (trngOk || !Bit(old(vmsa[0x3B0 / 8]), 14))
    ensures !(trngOk && ProtectionEnabled(old(vmsa[..]))) ==> vmsa[..] == old(vmsa[..])
    ensures trngOk && ProtectionEnabled(old(vmsa[..])) ==> vmsa[..] == Tweaked(old(vmsa[..])[NONCE := random], bitmap)
    ensures trngOk && Bit(old(vmsa[0x3B0 / 8]), 14) ==>
              IsTweaked(old(vmsa[..])[0x300 / 8 := random], vmsa[..], bitmap)
  {
    AndPower(vmsa[FEATURES], REG_PROT);
    if BitAnd(vmsa[FEATURES], Pow2(REG_PROT)) != 0 {
      if !trngOk {
        return false;
      }
      vmsa[NONCE] := random;
      ghost var seeded := vmsa[..];
      assert seeded == old(vmsa[..])[NONCE := random];
      ApplyBitmap(vmsa, bitmap);
    }
    return true;
  }

  /**
   * With the built-in bitmap the nonce and the feature word survive, so that the VMSA still says it is protected, and
   * applying the bitmap once more gives every register back.
   */
  lemma ProtectedVmsaRestores(v: Vmsa, random: uint64)
    ensures var t := Tweaked(v[NONCE := random], BuiltIn());
            && t[NONCE] == random && t[FEATURES] == v[FEATURES]
            && Tweaked(t, BuiltIn()) == v[NONCE := random]
    ensures forall q :: 0 <= q < QUADS && !Protected(q) && q != NONCE ==>
              Tweaked(v[NONCE := random], BuiltIn())[q] == v[q]
  {
    Untouched();
    RestoredBy(v[NONCE := random], BuiltIn());
    forall q | 0 <= q < QUADS && !Protected(q) && q != NONCE
      ensures Tweaked(v[NONCE := random], BuiltIn())[q] == v[q]
    {
      BuiltInIsRegisters(q);
    }
  }

  lemma Untouched()
    ensures !Selected(BuiltIn(), NONCE) && !Selected(BuiltIn(), FEATURES)
  {
    BuiltInIsRegisters(NONCE);
    BuiltInIsRegisters(FEATURES);
    Bands(NONCE);
    Bands(FEATURES);
  }
}
