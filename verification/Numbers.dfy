/** Fixed-width integer ranges of the program and its signed division helpers. */
module Numbers {

  type U8 = x: int | 0 <= x < 0x100
  type U16 = x: int | 0 <= x < 0x1_0000
  type U32 = x: int | 0 <= x < 0x1_0000_0000
  type U64 = x: int | 0 <= x < 0x1_0000_0000_0000_0000
  type U128 = x: int | 0 <= x < 0x1_0000_0000_0000_0000_0000_0000_0000_0000
  type I32 = x: int | -0x8000_0000 <= x < 0x8000_0000
  type I64 = x: int | -0x8000_0000_0000_0000 <= x < 0x8000_0000_0000_0000

  const U64_MAX: U64 := 0xFFFF_FFFF_FFFF_FFFF
  const I64_MIN: I64 := -0x8000_0000_0000_0000
  const I64_MAX: I64 := 0x7FFF_FFFF_FFFF_FFFF
  const I32_MIN: I32 := -0x8000_0000
  const I32_MAX: I32 := 0x7FFF_FFFF
  const U64_COUNT := 0x1_0000_0000_0000_0000
  const U32_COUNT := 0x1_0000_0000

  datatype Option<+T> = None | Some(value: T)

  function Min(a: int, b: int): int { if b < a then b else a }

  function Max(a: int, b: int): int { if a < b then b else a }

  /** The quotient of the machine's signed division: it rounds toward zero. */
  function TruncatedQuotient(n: int, d: int): int
    requires d > 0
  {
    if n >= 0 then n / d else -((-n) / d)
  }

  /** The machine's signed remainder: it has the sign of the numerator. */
  function TruncatedRemainder(n: int, d: int): int
    requires d > 0
  {
    n - TruncatedQuotient(n, d) * d
  }

  function FloorDivide(n: int, d: int): int
    requires d > 0
  {
    if TruncatedRemainder(n, d) < 0 then TruncatedQuotient(n, d) - 1 else TruncatedQuotient(n, d)
  }

  function CeilDivide(n: int, d: int): int
    requires d > 0
  {
    if TruncatedRemainder(n, d) > 0 then TruncatedQuotient(n, d) + 1 else TruncatedQuotient(n, d)
  }

  lemma QuotientBounds(n: int, d: int)
    requires d > 0
    ensures n / d * d <= n < n / d * d + d
  {
    assert n == n / d * d + n % d;
  }

  lemma MultiplesKeepOrder(a: int, b: int, d: int)
    requires d > 0
    ensures a < b <==> a * d < b * d
  {
    if a < b {
      assert (b - a) * d > 0;
      assert (b - a) * d == b * d - a * d;
    } else {
      assert (a - b) * d >= 0;
      assert (a - b) * d == a * d - b * d;
    }
  }

  /** The adjusted machine quotient is the mathematical floor, for every sign of the numerator. */
  lemma FloorDivideIsFloor(n: int, d: int)
    requires d > 0
    ensures FloorDivide(n, d) * d <= n < FloorDivide(n, d) * d + d
  {
    var m := if n >= 0 then n else -n;
    QuotientBounds(m, d);
    var t := TruncatedQuotient(n, d);
    assert t == m / d || t == -(m / d);
    assert (t - 1) * d == t * d - d;
    assert -(m / d) * d == -(m / d * d);
  }

  lemma CeilDivideIsCeiling(n: int, d: int)
    requires d > 0
    ensures CeilDivide(n, d) * d - d < n <= CeilDivide(n, d) * d
  {
    var m := if n >= 0 then n else -n;
    QuotientBounds(m, d);
    var t := TruncatedQuotient(n, d);
    assert t == m / d || t == -(m / d);
    assert (t + 1) * d == t * d + d;
    assert -(m / d) * d == -(m / d * d);
  }

  /** q is at most the floor of n/d exactly when q*d is at most n. */
  lemma AtMostFloor(q: int, n: int, d: int)
    requires d > 0
    ensures q <= FloorDivide(n, d) <==> q * d <= n
  {
    FloorDivideIsFloor(n, d);
    hide FloorDivide;
    var f := FloorDivide(n, d);
    assert (f + 1) * d == f * d + d;
    MultiplesKeepOrder(q, f + 1, d);
    MultiplesKeepOrder(f, q, d);
  }

  /** q is at least the ceiling of n/d exactly when q*d is at least n. */
  lemma AtLeastCeiling(q: int, n: int, d: int)
    requires d > 0
    ensures CeilDivide(n, d) <= q <==> n <= q * d
  {
    CeilDivideIsCeiling(n, d);
    hide CeilDivide;
    var c := CeilDivide(n, d);
    assert (c - 1) * d == c * d - d;
    MultiplesKeepOrder(q, c, d);
    MultiplesKeepOrder(c - 1, q, d);
  }
}
