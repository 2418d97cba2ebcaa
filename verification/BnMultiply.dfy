/** The two products: the low columns (or all of them), and the high columns only. */
module BnMultiply {
  import opened Word
  import opened Limbs
  import opened BigNum
  import opened Columns
  import opened BnAddSub

  /** The 64-bit column accumulator stays within this bound on entry to a column. */
  ghost predicate CarryBounded(carry: int, n: nat) {
    0 <= carry <= n * (BASE - 1)
  }

  /** A column of at most 80 digit products and the incoming carry fit into 64 bits, and the outgoing
      carry is bounded again. */
  lemma ColumnFits(carry: int, column: int, n: nat)
    requires n <= MAX_BN_ELEMENTS && CarryBounded(carry, n) && 0 <= column <= n * SQUARE
    ensures carry + column < TWO_64
    ensures CarryBounded((carry + column) / BASE, n)
  {
    assert carry + column <= n * (BASE - 1) * BASE;
  }

  /** The inner loop: `px` walks up the limbs of `x` while `py` walks down those of `y`. */
  method AddColumn(x: array<uint32>, n: nat, y: array<uint32>, m: nat, start: nat, limit: nat, c: nat,
                   carry: uint64) returns (total: uint64)
    requires n <= x.Length && m <= y.Length && n <= MAX_BN_ELEMENTS
    requires Proper(x[..], n) && Proper(y[..], m) && CarryBounded(carry, n)
    requires start < limit ==> start <= c && c - start < m && limit <= n && limit <= c + 1
    requires start > 0 ==> c - (start - 1) >= m
    requires (if start < limit then limit else start) < n ==> limit > c
    ensures total == carry + Column(x[..], n, y[..], m, c)
    ensures CarryBounded(total / BASE, n)
  {
    ghost var X, Y := x[..], y[..];
    total := carry;
    var px, py: int := start, c - start;
    ColumnBound(X, n, Y, m, c);
    ColumnFits(carry, Column(X, n, Y, m, c), n);
    ColumnBelow(X, AtMost(start, n), Y, m, c);
    while px < limit
      invariant start <= px && (px <= limit || px == start) && px + py == c
      invariant total == carry + Column(X, AtMost(px, n), Y, m, c)
    {
      ColumnMono(X, px + 1, n, Y, m, c);
      total := total + x[px] as int * y[py] as int;
      px, py := px + 1, py - 1;
    }
    ColumnAbove(X, AtMost(px, n), n, Y, m, c);
  }

  function AtMost(i: nat, n: nat): nat {
    if i <= n then i else n
  }

  lemma {:induction false} ColumnMono(x: seq<uint32>, i: nat, n: nat, y: seq<uint32>, m: nat, c: nat)
    requires i <= n <= |x| && m <= |y|
    ensures Column(x, i, y, m, c) <= Column(x, n, y, m, c)
  {
    if i < n {
      ColumnMono(x, i, n - 1, y, m, c);
    }
  }

  /** Stores the low 28 bits of the accumulator and shifts it down. */
  method StoreColumn(z: array<uint32>, i: nat, total: uint64, n: nat, ghost sum: int, ghost carry: int,
                     ghost column: int) returns (next: uint64)
    requires i < z.Length && CarryBounded(total / BASE, n)
    requires total == carry + column
    requires Val(z[..], i) + carry * Pow(i) == sum
    modifies z
    ensures CarryBounded(next, n)
    ensures z[i] < BASE && forall k :: 0 <= k < z.Length && k != i ==> z[k] == old(z[k])
    ensures Val(z[..], i + 1) + next * Pow(i + 1) == sum + column * Pow(i)
  {
    ghost var before := z[..];
    WrapMod(total);
    z[i] := Wrap32(total) % BASE;
    next := total / BASE;
    AddDigit(before, z[..], i, sum, column, carry, next);
  }

  /** One round of a column loop: digit `c` of the product and the carry into the next column. Columns
      below `first` are left out of the product. */
  method MultiplyColumn(z: array<uint32>, x: array<uint32>, n: nat, y: array<uint32>, m: nat, start: nat,
                        limit: nat, c: nat, carry: uint64, ghost first: nat) returns (next: uint64)
    requires z != x && z != y && c < z.Length && n <= x.Length && m <= y.Length && n <= MAX_BN_ELEMENTS
    requires Proper(x[..], n) && Proper(y[..], m) && CarryBounded(carry, n)
    requires ColumnRange(n, m, start, limit, c) && first <= c
    requires Val(z[..], c) + carry * Pow(c) == ColumnsBetween(x[..], n, y[..], m, first, c)
    modifies z
    ensures CarryBounded(next, n)
    ensures z[c] < BASE && forall k :: 0 <= k < z.Length && k != c ==> z[k] == old(z[k])
    ensures Val(z[..], c + 1) + next * Pow(c + 1) == ColumnsBetween(x[..], n, y[..], m, first, c + 1)
  {
    ghost var X, Y := x[..], y[..];
    var total := AddColumn(x, n, y, m, start, limit, c, carry);
    next := StoreColumn(z, c, total, n, ColumnsBetween(X, n, Y, m, first, c), carry, Column(X, n, Y, m, c));
    assert x[..] == X && y[..] == Y;
  }

  /** `start .. limit-1` covers every limb of `x` that meets a limb of `y` in column `c`. */
  ghost predicate ColumnRange(n: nat, m: nat, start: nat, limit: nat, c: nat) {
    && (start < limit ==> start <= c && c - start < m && limit <= n && limit <= c + 1)
    && (start > 0 ==> c - (start - 1) >= m)
    && ((if start < limit then limit else start) < n ==> limit > c)
  }

  ghost function ColumnsBetween(x: seq<uint32>, n: nat, y: seq<uint32>, m: nat, first: nat, k: nat): int
    requires n <= |x| && m <= |y|
  {
    LowColumns(x, n, y, m, k) - LowColumns(x, n, y, m, first)
  }

  /** The loop over the columns that have a limb of `x` for each limb of `y` up to theirs. */
  method FirstColumns(z: array<uint32>, x: array<uint32>, n: nat, y: array<uint32>, m: nat)
    returns (acc: uint64, pxLimit: nat)
    requires z != x && z != y && z.Length == x.Length == y.Length == MAX_BN_ELEMENTS
    requires 0 < n <= MAX_BN_ELEMENTS && 0 < m <= MAX_BN_ELEMENTS
    requires Proper(x[..], n) && Proper(y[..], m)
    modifies z
    ensures CarryBounded(acc, n) && pxLimit == AtMost(m - 1, n - 1) + 1
    ensures Proper(z[..], m - 1)
    ensures Val(z[..], m - 1) + acc * Pow(m - 1) == ColumnsBetween(x[..], n, y[..], m, 0, m - 1)
  {
    acc := 0;
    var xMax, yMax := n - 1, m - 1;
    pxLimit := 1;
    var i := 0;
    while i < yMax
      invariant i <= yMax && CarryBounded(acc, n)
      invariant pxLimit == AtMost(i, xMax) + 1
      invariant forall k :: 0 <= k < i ==> z[k] < BASE
      invariant Val(z[..], i) + acc * Pow(i) == ColumnsBetween(x[..], n, y[..], m, 0, i)
    {
      acc := MultiplyColumn(z, x, n, y, m, 0, pxLimit, i, acc, 0);
      if xMax > i {
        pxLimit := pxLimit + 1;
      }
      i := i + 1;
    }
  }

  /** The column loops of the product: `limit` columns, but never fewer than `m - 1`. */
  method MultiplyColumns(z: array<uint32>, x: array<uint32>, n: nat, y: array<uint32>, m: nat, limit: nat)
    returns (ghost carry: int)
    requires z != x && z != y && z.Length == x.Length == y.Length == MAX_BN_ELEMENTS
    requires 0 < n <= MAX_BN_ELEMENTS && 0 < m <= MAX_BN_ELEMENTS && 0 < limit <= MAX_BN_ELEMENTS
    requires Proper(x[..], n) && Proper(y[..], m)
    modifies z
    ensures carry >= 0
    ensures Proper(z[..], Columned(m, limit))
    ensures Val(z[..], Columned(m, limit)) + carry * Pow(Columned(m, limit))
              == LowColumns(x[..], n, y[..], m, Columned(m, limit))
  {
    var acc, pxLimit := FirstColumns(z, x, n, y, m);
    var xMax, yMax := n - 1, m - 1;
    var i, px := yMax, 0;
    while i < limit
      invariant yMax <= i && (i <= limit || i == yMax) && CarryBounded(acc, n)
      invariant px == i - yMax && pxLimit == AtMost(i, xMax) + 1
      invariant forall k :: 0 <= k < i ==> z[k] < BASE
      invariant Val(z[..], i) + acc * Pow(i) == ColumnsBetween(x[..], n, y[..], m, 0, i)
    {
      acc := MultiplyColumn(z, x, n, y, m, px, pxLimit, i, acc, 0);
      px := px + 1;
      if xMax > i {
        pxLimit := pxLimit + 1;
      }
      i := i + 1;
    }
    carry := acc;
  }

  /** How many columns the two loops produce. */
  ghost function Columned(m: nat, limit: nat): nat
    requires m > 0
  {
    if limit < m - 1 then m - 1 else limit
  }

  /** The digits produced are those of the product modulo B^limit. */
  lemma ColumnsModulo(z: seq<uint32>, carry: int, x: seq<uint32>, n: nat, y: seq<uint32>, m: nat, k: nat, limit: nat)
    requires n <= |x| && m <= |y| && limit <= k <= |z| && Proper(z, k) && carry >= 0
    requires Val(z, k) + carry * Pow(k) == LowColumns(x, n, y, m, k)
    ensures Val(z, limit) == (Val(x, n) * Val(y, m)) % Pow(limit)
  {
    var q := ProductAbove(x, n, y, m, k);
    var product, total := Val(x, n) * Val(y, m), q + carry;
    TwoMultiples(product, LowColumns(x, n, y, m, k), Val(z, k), q, carry, total, Pow(k));
    LowDigitsModulo(z, k, limit, product, total);
  }

  lemma TwoMultiples(product: int, low: int, v: int, q: int, carry: int, total: int, p: int)
    requires product == low + q * p && v + carry * p == low && total == q + carry
    ensures product == v + total * p
  {
    DistributeSum(q, carry, p);
  }

  lemma LowDigitsModulo(z: seq<uint32>, k: nat, limit: nat, product: int, q: int)
    requires limit <= k <= |z| && Proper(z, k)
    requires product == Val(z, k) + q * Pow(k)
    ensures Val(z, limit) == product % Pow(limit)
  {
    PowSplit(k, limit);
    ValSplit(z, limit, k);
    ValBound(z, limit);
    ModuloSplit(product, Val(z, limit), Pow(limit), Val(z[limit..], k - limit), q, Pow(k - limit));
  }

  lemma ModuloSplit(product: int, low: int, p: int, high: int, q: int, r: int)
    requires 0 <= low < p && product == low + p * high + q * (p * r)
    ensures low == product % p
  {
    assert p * high + q * (p * r) == (high + q * r) * p;
    DivModUnique(product, p, high + q * r, low);
  }

  /** z = x * y, or its `digits` low limbs when `digits` is not zero; `z` must be neither operand. */
  method Multiply(z: KcBignum, x: KcBignum, y: KcBignum, digits: nat) returns (status: Status)
    requires z.Valid() && x.Valid() && y.Valid() && Apart(z, x) && Apart(z, y)
    modifies z, z.data
    ensures z.Valid()
    ensures status == MultiplyStatus(z, x, y, if digits == 0 then old(x.used + y.used) else digits)
    ensures status == Ok ==> z.Trimmed() && z.Abs() == ProductDigits(old(x.Abs()), old(y.Abs()), digits)
    ensures status == Ok ==> z.sign == old(if x.used == 0 || y.used == 0 || x.sign == y.sign then 0 else 1)
  {
    if z == x || z == y {
      return InvalidParameter;
    }
    if x.used == 0 || y.used == 0 {
      NothingModulo(Pow(digits));
      Zero(z);
      return Ok;
    }
    var limit := if digits == 0 then x.used + y.used else digits;
    if limit > MAX_BN_ELEMENTS {
      return TooSmall;
    }
    z.sign := if x.sign != y.sign then 1 else 0;
    ghost var carry := MultiplyColumns(z.data, x.data, x.used, y.data, y.used, limit);
    z.limbs := z.data[..];
    z.used := limit;
    ColumnsModulo(z.limbs, carry, x.limbs, x.used, y.limbs, y.used, Columned(y.used, limit), limit);
    if digits == 0 {
      ProductBound(x.limbs, x.used, y.limbs, y.used);
    }
    Trim(z);
    return Ok;
  }

  lemma NothingModulo(p: int)
    requires p > 0
    ensures 0 % p == 0
  {
    DivModUnique(0, p, 0, 0);
  }

  ghost function ProductDigits(a: int, b: int, digits: nat): int {
    if digits == 0 then a * b else (a * b) % Pow(digits)
  }

  ghost function MultiplyStatus(z: KcBignum, x: KcBignum, y: KcBignum, limit: nat): Status
    reads x, y
  {
    if z == x || z == y then InvalidParameter
    else if x.used == 0 || y.used == 0 then Ok
    else if limit > MAX_BN_ELEMENTS then TooSmall
    else Ok
  }

  lemma ProductBound(x: seq<uint32>, n: nat, y: seq<uint32>, m: nat)
    requires n <= |x| && m <= |y| && Proper(x, n) && Proper(y, m)
    ensures Val(x, n) * Val(y, m) < Pow(n + m)
    ensures (Val(x, n) * Val(y, m)) % Pow(n + m) == Val(x, n) * Val(y, m)
  {
    ValBound(x, n);
    ValBound(y, m);
    PowAdd(n, m);
    ProductLess(Val(x, n), Pow(n), Val(y, m), Pow(m));
    DivModUnique(Val(x, n) * Val(y, m), Pow(n + m), 0, Val(x, n) * Val(y, m));
  }

  lemma ProductLess(a: int, p: int, b: int, q: int)
    requires 0 <= a < p && 0 <= b < q
    ensures 0 <= a * b < p * q
  {
    MulLe(a, p, b);
    MulLe(b + 1, q, p);
    MulLe(0, a, b);
    assert (b + 1) * p == p * b + p;
  }

  /** The columns from `digits` on, over zeros. */
  method HighColumnsLoop(z: array<uint32>, x: array<uint32>, n: nat, y: array<uint32>, m: nat, digits: nat, limit: nat)
    returns (ghost carry: int)
    requires z != x && z != y && z.Length == x.Length == y.Length == MAX_BN_ELEMENTS
    requires 0 < n && 0 < m && n + m == limit <= MAX_BN_ELEMENTS && digits <= limit
    requires Proper(x[..], n) && Proper(y[..], m)
    requires ZeroFrom(z[..], 0, digits)
    modifies z
    ensures carry >= 0
    ensures Proper(z[..], limit)
    ensures Val(z[..], limit) + carry * Pow(limit) == ColumnsBetween(x[..], n, y[..], m, digits, limit)
  {
    var acc: uint64 := 0;
    var i := digits;
    ValZeroTail(z[..], 0, digits);
    while i < limit
      invariant digits <= i <= limit && CarryBounded(acc, n)
      invariant forall k :: 0 <= k < i ==> z[k] < BASE
      invariant Val(z[..], i) + acc * Pow(i) == ColumnsBetween(x[..], n, y[..], m, digits, i)
    {
      var px, pxLimit := 0, 0;
      if m > i + 1 {
        px := 0;
        pxLimit := px + if n > i + 1 then i + 1 else n;
      } else {
        px := i - m + 1;
        pxLimit := px + if n > i + 1 then m else n + m - i - 1;
      }
      acc := MultiplyColumn(z, x, n, y, m, px, pxLimit, i, acc, digits);
      i := i + 1;
    }
    carry := acc;
  }

  /** The product without its columns below `digits`. */
  ghost function HighPart(x: seq<uint32>, n: nat, y: seq<uint32>, m: nat, digits: nat): int
    requires n <= |x| && m <= |y|
  {
    Val(x, n) * Val(y, m) - LowColumns(x, n, y, m, AtMost(digits, n + m))
  }

  lemma HighPartFits(z: seq<uint32>, carry: int, x: seq<uint32>, n: nat, y: seq<uint32>, m: nat, digits: nat)
    requires n <= |x| && m <= |y| && n + m <= |z| && digits <= n + m && carry >= 0
    requires Proper(x, n) && Proper(y, m)
    requires Val(z, n + m) + carry * Pow(n + m) == ColumnsBetween(x, n, y, m, digits, n + m)
    ensures Val(z, n + m) == HighPart(x, n, y, m, digits)
  {
    ColumnsAreProduct(x, n, y, m, n + m);
    ProductBound(x, n, y, m);
    if carry > 0 {
      MulLe(1, carry, Pow(n + m));
    }
  }

  lemma HighPartEmpty(x: seq<uint32>, n: nat, y: seq<uint32>, m: nat, digits: nat)
    requires n <= |x| && m <= |y| && (n == 0 || m == 0 || digits >= n + m)
    ensures HighPart(x, n, y, m, digits) == 0
  {
    if digits >= n + m {
      ColumnsAreProduct(x, n, y, m, n + m);
    } else {
      assert Val(x, n) == 0 || Val(y, m) == 0;
      var q := ProductAbove(x, n, y, m, AtMost(digits, n + m));
      MulLe(0, q, Pow(AtMost(digits, n + m)));
    }
  }

  /** z = x * y without the columns below `digits`; `z` must be neither operand. */
  method MultiplyHighDigs(z: KcBignum, x: KcBignum, y: KcBignum, digits: nat) returns (status: Status)
    requires z.Valid() && x.Valid() && y.Valid() && Apart(z, x) && Apart(z, y)
    requires digits <= MAX_BN_ELEMENTS
    modifies z, z.data
    ensures z.Valid()
    ensures status == MultiplyStatus(z, x, y, old(x.used + y.used))
    ensures status == Ok ==>
              z.Trimmed() && z.Abs() == old(HighPart(x.limbs, x.used, y.limbs, y.used, digits))
    ensures status == Ok ==> z.sign == old(if x.used == 0 || y.used == 0 || x.sign == y.sign then 0 else 1)
  {
    if z == x || z == y {
      return InvalidParameter;
    }
    if x.used == 0 || y.used == 0 {
      HighPartEmpty(x.limbs, x.used, y.limbs, y.used, digits);
      Zero(z);
      return Ok;
    }
    var limit := x.used + y.used;
    if limit > MAX_BN_ELEMENTS {
      return TooSmall;
    }
    z.sign := if x.sign != y.sign then 1 else 0;
    HighColumns(z.data, x.data, x.used, y.data, y.used, digits);
    z.limbs := z.data[..];
    z.used := limit;
    Trim(z);
    return Ok;
  }

  /** The columns from `digits` on, over cleared low columns. */
  method HighColumns(z: array<uint32>, x: array<uint32>, n: nat, y: array<uint32>, m: nat, digits: nat)
    requires z != x && z != y && z.Length == x.Length == y.Length == MAX_BN_ELEMENTS
    requires 0 < n && 0 < m && n + m <= MAX_BN_ELEMENTS && digits <= MAX_BN_ELEMENTS
    requires Proper(x[..], n) && Proper(y[..], m)
    modifies z
    ensures Proper(z[..], n + m) && Val(z[..], n + m) == HighPart(x[..], n, y[..], m, digits)
  {
    ghost var X, Y := x[..], y[..];
    ClearDigits(z, digits);
    assert x[..] == X && y[..] == Y;
    if digits < n + m {
      ghost var carry := HighColumnsLoop(z, x, n, y, m, digits, n + m);
      HighPartFits(z[..], carry, X, n, Y, m, digits);
    } else {
      ValZeroTail(z[..], 0, n + m);
      HighPartEmpty(X, n, Y, m, digits);
    }
  }

  method ClearDigits(z: array<uint32>, digits: nat)
    requires digits <= z.Length
    modifies z
    ensures ZeroFrom(z[..], 0, digits)
  {
    for i := 0 to digits
      invariant forall k :: 0 <= k < i ==> z[k] == 0
    {
      z[i] := 0;
    }
  }

  /** Leaving out the columns below `digits` loses less than digits * B^(digits+1). */
  lemma HighPartLoss(x: seq<uint32>, n: nat, y: seq<uint32>, m: nat, digits: nat)
    requires n <= |x| && m <= |y| && Proper(x, n) && Proper(y, m) && digits <= n + m
    ensures HighPart(x, n, y, m, digits) <= Val(x, n) * Val(y, m)
    ensures digits == 0 ==> HighPart(x, n, y, m, digits) == Val(x, n) * Val(y, m)
    ensures digits > 0 ==> Val(x, n) * Val(y, m) - HighPart(x, n, y, m, digits) < digits * Pow(digits + 1)
  {
    LowColumnsBound(x, n, y, m, digits);
  }
}
