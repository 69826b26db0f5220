/** Binary32 values as bit patterns: exact classification, comparison and negation, no rounding. */
module Floats {

  type Float = b: int | 0 <= b < 0x1_0000_0000

  const SIGN_BIT := 0x8000_0000
  const INFINITY: Float := 0x7F80_0000
  const POSITIVE_ZERO: Float := 0

  /** The pattern without its sign bit. */
  function Magnitude(f: Float): Float {
    if f < SIGN_BIT then f else f - SIGN_BIT
  }

  predicate IsFinite(f: Float) {
    Magnitude(f) < INFINITY
  }

  predicate IsNaN(f: Float) {
    Magnitude(f) > INFINITY
  }

  function Negate(f: Float): Float {
    if f < SIGN_BIT then f + SIGN_BIT else f - SIGN_BIT
  }

  /** Position on the number line; both zeros share position 0. */
  function Rank(f: Float): int {
    var m: int := Magnitude(f);
    if f < SIGN_BIT then m else -m
  }

  predicate Less(a: Float, b: Float) {
    !IsNaN(a) && !IsNaN(b) && Rank(a) < Rank(b)
  }

  predicate AtMost(a: Float, b: Float) {
    !IsNaN(a) && !IsNaN(b) && Rank(a) <= Rank(b)
  }

  /** Numerical equality: both zeros are equal and a NaN equals nothing. */
  predicate Equal(a: Float, b: Float) {
    !IsNaN(a) && !IsNaN(b) && Rank(a) == Rank(b)
  }

  /** The library's maximum and minimum: the first argument unless the second is strictly better. */
  function Maximum(a: Float, b: Float): Float { if Less(a, b) then b else a }

  function Minimum(a: Float, b: Float): Float { if Less(b, a) then b else a }

  /** Two patterns hold the same number: identical, or the two zeros. */
  predicate SameNumber(a: Float, b: Float) {
    a == b || Equal(a, b)
  }

  // ---- Sizes ----

  function Doubled(v: nat, times: nat): nat {
    if times == 0 then v else 2 * Doubled(v, times - 1)
  }

  lemma {:induction false} DoubledAdds(v: nat, w: nat, n: nat)
    ensures Doubled(v, n) + Doubled(w, n) == Doubled(v + w, n)
    ensures v < w ==> Doubled(v, n) < Doubled(w, n)
  {
    if n > 0 {
      DoubledAdds(v, w, n - 1);
    }
  }

  lemma {:induction false} DoubledTwice(v: nat, m: nat, n: nat)
    ensures Doubled(Doubled(v, m), n) == Doubled(v, m + n)
  {
    if n > 0 {
      DoubledTwice(v, m, n - 1);
    }
  }

  /** The size of a finite number, counted in units of 2^-149. */
  function Units(f: Float): nat {
    var exponent, fraction := Magnitude(f) / 0x80_0000, Magnitude(f) % 0x80_0000;
    if exponent == 0 then fraction else Doubled(0x80_0000 + fraction, exponent - 1)
  }

  /** 2^128 - 2^103 in those units: from here on a sum is rounded to infinity. */
  const ROUNDS_TO_INFINITY: nat := Doubled(0x1FF_FFFF, 252)

  /** The difference of two finite numbers is above every finite number. */
  predicate DifferenceOverflows(a: Float, b: Float) {
    Less(b, POSITIVE_ZERO) && Less(POSITIVE_ZERO, a) && Units(a) + Units(b) >= ROUNDS_TO_INFINITY
  }

  lemma {:induction false} DoubledGrows(v: nat, m: nat, n: nat)
    requires m <= n
    ensures Doubled(v, m) <= Doubled(v, n)
    decreases n
  {
    if m < n {
      DoubledGrows(v, m, n - 1);
    }
  }

  lemma UnitsAtMost(f: Float, exponent: nat)
    requires Magnitude(f) / 0x80_0000 <= exponent && exponent > 0
    ensures Units(f) <= Doubled(0xFF_FFFF, exponent - 1)
  {
    var own, significand := Magnitude(f) / 0x80_0000, 0x80_0000 + Magnitude(f) % 0x80_0000;
    if own == 0 {
      DoubledGrows(0xFF_FFFF, 0, exponent - 1);
    } else {
      DoubledAdds(significand, 0xFF_FFFF, own - 1);
      DoubledGrows(0xFF_FFFF, own - 1, exponent - 1);
    }
  }

  lemma {:induction false} DoubledIsProduct(v: nat, n: nat)
    ensures Doubled(v, n) == v * Doubled(1, n)
  {
    if n > 0 {
      DoubledIsProduct(v, n - 1);
    }
  }

  lemma DoubledSquares(m: nat)
    ensures Doubled(1, m + m) == Doubled(1, m) * Doubled(1, m)
  {
    DoubledTwice(1, m, m);
    DoubledIsProduct(Doubled(1, m), m);
  }

  lemma TwentyFourDoublings()
    ensures Doubled(1, 24) == 0x100_0000
  {
    assert Doubled(1, 3) == 8;
    DoubledSquares(3);
    DoubledSquares(6);
    DoubledSquares(12);
  }
}
