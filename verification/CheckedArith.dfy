/**
 The runtime's overflow-checked arithmetic.

 Operands are newtypes with the width of the C integer types, so the verifier also
 checks that every intermediate value of a guard (`INT32_MAX - b`, the widened
 product, ...) fits its own type: no guard overflows itself.
 */
module CheckedArith {
  newtype i32 = x: int | -0x8000_0000 <= x < 0x8000_0000
  newtype i64 = x: int | -0x8000_0000_0000_0000 <= x < 0x8000_0000_0000_0000

  const INT32_MAX: i32 := 0x7fff_ffff
  const INT32_MIN: i32 := -0x8000_0000
  const INT64_MAX: i64 := 0x7fff_ffff_ffff_ffff
  const INT64_MIN: i64 := -0x8000_0000_0000_0000

  datatype Checked<+T> = Ok(value: T) | Panic

  // ----- the exact results -----

  predicate Fits32(n: int) { -0x8000_0000 <= n < 0x8000_0000 }

  predicate Fits64(n: int) { -0x8000_0000_0000_0000 <= n < 0x8000_0000_0000_0000 }

  /** The exact result when it is representable, a panic otherwise. */
  function Exact32(n: int): Checked<i32> {
    if Fits32(n) then Ok(n as i32) else Panic
  }

  function Exact64(n: int): Checked<i64> {
    if Fits64(n) then Ok(n as i64) else Panic
  }

  function Abs(n: int): nat { if n < 0 then -n else n }

  /** C division: the quotient is truncated toward zero. */
  function TruncDiv(a: int, b: int): int
    requires b != 0
  {
    var q := Abs(a) / Abs(b);
    if (a < 0) == (b < 0) then q else -q
  }

  /** C remainder: it has the sign of the dividend. */
  function TruncMod(a: int, b: int): int
    requires b != 0
  {
    a - b * TruncDiv(a, b)
  }

  lemma ProductAtLeast(x: int, y: int)
    requires x >= 1 && y >= 1
    ensures x * y >= x && x * y >= y
  {
    assert x * y == x * (y - 1) + x == (x - 1) * y + y;
  }

  lemma EuclidUnique(m: int, n: int, q: int, r: int, t: int)
    requires m == n * q + r && 0 <= r < n
    ensures t == q <==> 0 <= m - n * t < n
  {
    if t < q { ProductAtLeast(n, q - t); assert n * (q - t) == n * q - n * t; }
    if t > q { ProductAtLeast(n, t - q); assert n * (t - q) == n * t - n * q; }
  }

  /** The floor quotient is the only one whose remainder lies in [0, n). */
  lemma FloorUnique(m: int, n: int, t: int)
    requires m >= 0 && n > 0
    ensures t == m / n <==> 0 <= m - n * t < n
  {
    EuclidUnique(m, n, m / n, m % n, t);
  }

  /** Truncation toward zero is the only quotient whose remainder is smaller than the
      divisor and does not have the opposite sign of the dividend. */
  lemma TruncDivUnique(a: int, b: int, q: int)
    requires b != 0
    ensures q == TruncDiv(a, b) <==>
            Abs(a - b * q) < Abs(b) && (a >= 0 ==> a - b * q >= 0) && (a <= 0 ==> a - b * q <= 0)
  {
    var m: int, n: int := Abs(a), Abs(b);
    var q' := if (a < 0) == (b < 0) then q else -q;
    FloorUnique(m, n, q');
    assert b * q == if a < 0 then -(n * q') else n * q' by { SignedProduct(a, b, q); }
    if a == 0 { EuclidUnique(0, n, 0, 0, -q'); assert n * (-q') == -(n * q'); }
  }

  lemma SignedProduct(a: int, b: int, q: int)
    ensures b * q == var p := Abs(b) * if (a < 0) == (b < 0) then q else -q; if a < 0 then -p else p
  {
    assert (-b) * (-q) == b * q && (-b) * q == -(b * q) && b * (-q) == -(b * q);
  }

  lemma QuotientShrinks(m: int, n: int, t: int)
    requires n > 0 && t >= 0 && m - n * t >= 0
    ensures t <= m && (n >= 2 && m > 0 ==> t < m)
  {
    if t >= 1 {
      ProductAtLeast(n, t);
      if n >= 2 { ProductAtLeast(n - 1, t); assert n * t == t + (n - 1) * t; }
    }
  }

  lemma TruncDivBound(a: int, b: int)
    requires b != 0
    ensures Abs(TruncDiv(a, b)) <= Abs(a)
    ensures b != 1 && b != -1 && a != 0 ==> Abs(TruncDiv(a, b)) < Abs(a)
  {
    var m: int, n: int := Abs(a), Abs(b);
    var t := m / n;
    FloorUnique(m, n, t);
    QuotientShrinks(m, n, t);
    assert Abs(TruncDiv(a, b)) == t;
  }

  // ----- i32 -----

  function AddI32(a: i32, b: i32): (r: Checked<i32>)
    ensures r == Exact32(a as int + b as int)
  {
    if b > 0 && a > INT32_MAX - b then Panic
    else if b < 0 && a < INT32_MIN - b then Panic
    else Ok(a + b)
  }

  function SubI32(a: i32, b: i32): (r: Checked<i32>)
    ensures r == Exact32(a as int - b as int)
  {
    if b < 0 && a > INT32_MAX + b then Panic
    else if b > 0 && a < INT32_MIN + b then Panic
    else Ok(a - b)
  }

  lemma ProductBound(a: int, b: int, m: int)
    requires Abs(a) <= m && Abs(b) <= m
    ensures Abs(a * b) <= m * m
  {
    var x: int, y: int := Abs(a), Abs(b);
    NonNegative(m - x, y);
    NonNegative(m, m - y);
    assert m * m == x * y + (m - x) * y + m * (m - y);
    assert (-a) * b == -(a * b) && a * (-b) == -(a * b) && (-a) * (-b) == a * b;
    NonNegative(x, y);
  }

  lemma NonNegative(x: int, y: int)
    requires x >= 0 && y >= 0
    ensures x * y >= 0
  {
  }

  function MulI32(a: i32, b: i32): (r: Checked<i32>)
    ensures r == Exact32(a as int * b as int)
  {
    ProductBound(a as int, b as int, 0x8000_0000);
    var wide: i64 := (a as i64) * (b as i64);
    if wide > INT32_MAX as i64 || wide < INT32_MIN as i64 then Panic
    else Ok(wide as i32)
  }

  function DivI32(a: i32, b: i32): (r: Checked<i32>)
    ensures r == if b == 0 then Panic else Exact32(TruncDiv(a as int, b as int))
  {
    if b == 0 then Panic
    else if a == INT32_MIN && b == -1 then Panic
    else
      TruncDivBound(a as int, b as int);
      Ok(TruncDiv(a as int, b as int) as i32)
  }

  /** The remainder of MIN by -1 is 0 and fits, but the runtime panics on it too. */
  function ModI32(a: i32, b: i32): (r: Checked<i32>)
    ensures r == if b == 0 || (a == INT32_MIN && b == -1) then Panic
                 else Exact32(TruncMod(a as int, b as int))
  {
    if b == 0 then Panic
    else if a == INT32_MIN && b == -1 then Panic
    else
      TruncDivUnique(a as int, b as int, TruncDiv(a as int, b as int));
      Ok(TruncMod(a as int, b as int) as i32)
  }

  function NegI32(a: i32): (r: Checked<i32>)
    ensures r == Exact32(-(a as int))
  {
    if a == INT32_MIN then Panic else Ok(-a)
  }

  // ----- i64 -----

  function AddI64(a: i64, b: i64): (r: Checked<i64>)
    ensures r == Exact64(a as int + b as int)
  {
    if b > 0 && a > INT64_MAX - b then Panic
    else if b < 0 && a < INT64_MIN - b then Panic
    else Ok(a + b)
  }

  function SubI64(a: i64, b: i64): (r: Checked<i64>)
    ensures r == Exact64(a as int - b as int)
  {
    if b < 0 && a > INT64_MAX + b then Panic
    else if b > 0 && a < INT64_MIN + b then Panic
    else Ok(a - b)
  }

  /** For a positive divisor, comparing with the floor quotient is comparing products. */
  lemma QuotientGuard(x: nat, y: int, limit: nat)
    requires y > 0
    ensures x > limit / y <==> x * y > limit
  {
    var q := limit / y;
    FloorUnique(limit, y, q);
    if x > q { ProductAtLeast(x - q, y); assert x * y == q * y + (x - q) * y; }
    if x < q { ProductAtLeast(q - x, y); assert q * y == x * y + (q - x) * y; }
  }

  /** C division of two i64 values; only MIN / -1 does not fit. */
  function CDiv64(a: i64, b: i64): i64
    requires b != 0 && !(a == INT64_MIN && b == -1)
  {
    TruncDivBound(a as int, b as int);
    TruncDiv(a as int, b as int) as i64
  }

  /** The same four-way case analysis as the source: which guard fires for which signs. */
  predicate MulI64Overflows(a: i64, b: i64) {
    if a > 0 then
      if b > 0 then a > CDiv64(INT64_MAX, b)
      else if b < 0 then b < CDiv64(INT64_MIN, a)
      else false
    else if a < 0 then
      if b > 0 then a < CDiv64(INT64_MIN, b)
      else if b < 0 then b < CDiv64(INT64_MAX, a)
      else false
    else false
  }

  lemma MulI64GuardExact(a: i64, b: i64)
    ensures MulI64Overflows(a, b) <==> !Fits64(a as int * b as int)
  {
    var x: int, y: int := Abs(a as int), Abs(b as int);
    var min: int, max: int := INT64_MIN as int, INT64_MAX as int;
    if a > 0 && b > 0 {
      QuotientGuard(x, y, max);
      ProductAtLeast(x, y);
    } else if a > 0 && b < 0 {
      QuotientGuard(y, x, -min);
      assert a as int * b as int == -(y * x);
      ProductAtLeast(y, x);
    } else if a < 0 && b > 0 {
      QuotientGuard(x, y, -min);
      assert a as int * b as int == -(x * y);
      ProductAtLeast(x, y);
    } else if a < 0 && b < 0 {
      QuotientGuard(y, x, max);
      assert a as int * b as int == y * x;
      ProductAtLeast(y, x);
    }
  }

  function MulI64(a: i64, b: i64): (r: Checked<i64>)
    ensures r == Exact64(a as int * b as int)
  {
    MulI64GuardExact(a, b);
    if MulI64Overflows(a, b) then Panic else Ok(a * b)
  }

  function DivI64(a: i64, b: i64): (r: Checked<i64>)
    ensures r == if b == 0 then Panic else Exact64(TruncDiv(a as int, b as int))
  {
    if b == 0 then Panic
    else if a == INT64_MIN && b == -1 then Panic
    else
      TruncDivBound(a as int, b as int);
      Ok(TruncDiv(a as int, b as int) as i64)
  }

  function ModI64(a: i64, b: i64): (r: Checked<i64>)
    ensures r == if b == 0 || (a == INT64_MIN && b == -1) then Panic
                 else Exact64(TruncMod(a as int, b as int))
  {
    if b == 0 then Panic
    else if a == INT64_MIN && b == -1 then Panic
    else
      TruncDivUnique(a as int, b as int, TruncDiv(a as int, b as int));
      Ok(TruncMod(a as int, b as int) as i64)
  }

  function NegI64(a: i64): (r: Checked<i64>)
    ensures r == Exact64(-(a as int))
  {
    if a == INT64_MIN then Panic else Ok(-a)
  }
}
