/** Binary32 arithmetic as correct rounding, and exactly when the smoothed maximum overflows in it. */
module Rounding {
  import opened Numbers
  import opened Floats

  // ---- Numbers on the real line, in units of 2^-149 ----

  function Size(f: Float): int {
    var units: int := Units(f);
    if f < SIGN_BIT then units else -units
  }

  function Distance(x: real, f: Float): real {
    var d := Size(f) as real - x;
    if d < 0.0 then -d else d
  }

  /** No finite number is nearer, and an even pattern is preferred to an equally near neighbour. */
  ghost predicate Nearest(x: real, r: Float) {
    && IsFinite(r)
    && (forall g :: IsFinite(g) ==> Distance(x, r) <= Distance(x, g))
    && (forall g :: IsFinite(g) && Size(g) != Size(r) && Distance(x, g) == Distance(x, r) ==> r % 2 == 0)
  }

  /** Round to nearest, ties to even; from 2^128 - 2^103 on, to infinity. */
  ghost predicate RoundsTo(x: real, r: Float) {
    if x >= ROUNDS_TO_INFINITY as real then r == INFINITY
    else if x <= -(ROUNDS_TO_INFINITY as real) then r == Negate(INFINITY)
    else Nearest(x, r)
  }

  // ---- The finite numbers ----

  /** Half a step between the largest numbers. */
  const HALF_STEP: nat := Doubled(1, 252)

  lemma TopScale(v: nat)
    ensures Doubled(v, 252) == v * HALF_STEP && Doubled(v, 253) == 2 * v * HALF_STEP
    ensures ROUNDS_TO_INFINITY == 0x1FF_FFFF * HALF_STEP
    ensures HALF_STEP > 0
  {
    var n: nat := 252;
    Scale(v, n);
  }

  lemma Scale(v: nat, n: nat)
    ensures Doubled(v, n) == v * Doubled(1, n) && Doubled(v, n + 1) == 2 * v * Doubled(1, n)
    ensures Doubled(0x1FF_FFFF, n) == 0x1FF_FFFF * Doubled(1, n)
    ensures Doubled(1, n) > 0
  {
    DoubledIsProduct(v, n);
    DoubledIsProduct(0x1FF_FFFF, n);
    DoubledGrows(1, 0, n);
  }

  lemma SizeAtTheTop(f: Float)
    requires IsFinite(f)
    ensures
      var exponent, significand := Magnitude(f) / 0x80_0000, 0x80_0000 + Magnitude(f) % 0x80_0000;
      && exponent <= 254
      && (exponent == 254 ==> Units(f) == 2 * significand * HALF_STEP)
      && (exponent < 254 ==> Units(f) <= 0xFF_FFFF * HALF_STEP)
  {
    hide Doubled;
    var exponent, significand := Magnitude(f) / 0x80_0000, 0x80_0000 + Magnitude(f) % 0x80_0000;
    TopScale(significand);
    TopScale(0xFF_FFFF);
    if exponent < 254 {
      UnitsAtMost(f, 253);
    }
  }

  lemma {:induction false} FloatOf(k: nat, e: nat) returns (f: Float)
    requires k <= 0xFF_FFFF && e <= 253
    ensures f < SIGN_BIT && IsFinite(f) && Units(f) == Doubled(k, e)
    decreases e
  {
    if k >= 0x80_0000 {
      f := (e + 1) * 0x80_0000 + (k - 0x80_0000);
      assert f / 0x80_0000 == e + 1 && f % 0x80_0000 == k - 0x80_0000;
    } else if e == 0 {
      f := k;
    } else {
      f := FloatOf(2 * k, e - 1);
      DoubledTwice(k, 1, e - 1);
      assert Doubled(k, 1) == 2 * k;
    }
  }

  // ---- Patterns and sizes ----

  lemma {:induction false} LargerUnits(f: Float, g: Float)
    requires Magnitude(f) < Magnitude(g)
    ensures Units(f) < Units(g)
  {
    var e, h := Magnitude(f) / 0x80_0000, Magnitude(g) / 0x80_0000;
    var v, w := 0x80_0000 + Magnitude(f) % 0x80_0000, 0x80_0000 + Magnitude(g) % 0x80_0000;
    if e == h {
      if e > 0 { DoubledAdds(v, w, e - 1); }
    } else {
      if e > 0 { UnitsAtMost(f, e); }
      var low := if e == 0 then 0 else e - 1;
      DoubledAdds(0xFF_FFFF, 0x100_0000, low);
      DoubledTwice(0x80_0000, 1, low);
      DoubledGrows(0x80_0000, if e == 0 then 0 else e, h - 1);
      if w > 0x80_0000 { DoubledAdds(0x80_0000, w, h - 1); }
    }
  }

  lemma SizesFollowRanks(f: Float, g: Float)
    ensures Rank(f) < Rank(g) <==> Size(f) < Size(g)
  {
    hide Doubled;
    assert Units(POSITIVE_ZERO) == 0;
    assert Units(f) == Units(Magnitude(f)) && Units(g) == Units(Magnitude(g));
    if Magnitude(f) > 0 { LargerUnits(POSITIVE_ZERO, f); }
    if Magnitude(g) > 0 { LargerUnits(POSITIVE_ZERO, g); }
    hide Units;
    if Magnitude(f) < Magnitude(g) {
      LargerUnits(f, g);
    } else if Magnitude(g) < Magnitude(f) {
      LargerUnits(g, f);
    }
  }

  // ---- What rounding keeps ----

  lemma SizesAreBounded(f: Float)
    requires IsFinite(f)
    ensures Size(f) < ROUNDS_TO_INFINITY && -Size(f) < ROUNDS_TO_INFINITY
    ensures Units(f) <= 0x1FF_FFFE * HALF_STEP
  {
    hide Doubled;
    SizeAtTheTop(f);
    TopScale(0);
    var significand := 0x80_0000 + Magnitude(f) % 0x80_0000;
    assert 2 * significand * HALF_STEP <= 0x1FF_FFFE * HALF_STEP by { ScaleKeepsOrder(2 * significand, 0x1FF_FFFE, HALF_STEP); }
  }

  lemma ScaleKeepsOrder(a: int, b: int, s: nat)
    requires s > 0
    ensures a <= b <==> a * s <= b * s
    ensures a == b <==> a * s == b * s
  {}

  /** A number at or above a finite one is not rounded below it. */
  lemma RoundsNoLower(x: real, r: Float, g: Float)
    requires RoundsTo(x, r) && IsFinite(g) && Size(g) as real <= x
    ensures r == INFINITY || (IsFinite(r) && Size(r) >= Size(g))
  {
    hide Size;
    SizesAreBounded(g);
    assert IsFinite(r) ==> Distance(x, r) <= Distance(x, g);
  }

  lemma RoundsNoHigher(x: real, r: Float, g: Float)
    requires RoundsTo(x, r) && IsFinite(g) && x <= Size(g) as real
    ensures r == Negate(INFINITY) || (IsFinite(r) && Size(r) <= Size(g))
  {
    hide Size;
    SizesAreBounded(g);
    assert IsFinite(r) ==> Distance(x, r) <= Distance(x, g);
  }

  /** A finite number is kept as it is. */
  lemma RoundsExactly(x: real, r: Float, g: Float)
    requires RoundsTo(x, r) && IsFinite(g) && x == Size(g) as real
    ensures IsFinite(r) && Size(r) == Size(g)
  {
    RoundsNoLower(x, r, g);
    RoundsNoHigher(x, r, g);
    hide Size, RoundsTo;
  }

  lemma RoundsToFinite(x: real, r: Float)
    requires RoundsTo(x, r)
    ensures IsFinite(r) <==> -(ROUNDS_TO_INFINITY as real) < x < ROUNDS_TO_INFINITY as real
    ensures r == INFINITY <==> x >= ROUNDS_TO_INFINITY as real
    ensures r == Negate(INFINITY) <==> x <= -(ROUNDS_TO_INFINITY as real)
  {
    hide Doubled;
    TopScale(0);
  }

  // ---- How near the next number is ----

  lemma SignedFloat(k: nat, e: nat, negative: bool) returns (f: Float)
    requires k <= 0xFF_FFFF && e <= 253
    ensures
      var units: int := Doubled(k, e);
      IsFinite(f) && Size(f) == if negative then -units else units
  {
    f := FloatOf(k, e);
    if negative {
      f := Negate(f);
    }
  }

  /** The multiple of a step nearest to n. */
  lemma NearestMultiple(n: nat, step: nat, limit: nat) returns (k: nat)
    requires step > 0 && 2 * n < 2 * (limit * step) + step
    ensures k <= limit && 2 * (k * step) - step <= 2 * n <= 2 * (k * step) + step
  {
    k := (2 * n + step) / (2 * step);
    QuotientBounds(2 * n + step, 2 * step);
    assert k * (2 * step) == 2 * (k * step);
    assert k <= limit by {
      assert (limit + 1) * step == limit * step + step;
      ScaleKeepsOrder(limit + 1, k, step);
    }
  }

  /** Some number is within half a step of n, as long as the significand lasts. */
  lemma Neighbour(n: int, e: nat, step: nat) returns (g: Float)
    requires e <= 253 && step == Doubled(1, e)
    requires -(0x1FF_FFFF * step) < 2 * n < 0x1FF_FFFF * step
    ensures IsFinite(g) && 2 * Size(g) - step <= 2 * n <= 2 * Size(g) + step
  {
    var m: nat := if n < 0 then -n else n;
    DoubledGrows(1, 0, e);
    var k := NearestMultiple(m, step, 0xFF_FFFF);
    DoubledIsProduct(k, e);
    hide Size, Doubled;
    g := SignedFloat(k, e, n < 0);
  }

  /** Below 2^128 - 2^103 some number is at most half a top step away. */
  lemma CoarseNeighbour(n: int) returns (g: Float)
    requires -(ROUNDS_TO_INFINITY as int) < n < ROUNDS_TO_INFINITY
    ensures IsFinite(g) && Size(g) - HALF_STEP <= n <= Size(g) + HALF_STEP
  {
    hide Doubled, Size;
    TopScale(1);
    g := Neighbour(n, 253, 2 * HALF_STEP);
  }

  /** Below 2^127 - 2^102 some number is at most a quarter of a top step away. */
  lemma FineNeighbour(n: int) returns (g: Float)
    requires -(0x1FF_FFFF * HALF_STEP) < 2 * n < 0x1FF_FFFF * HALF_STEP
    ensures IsFinite(g) && 2 * Size(g) - HALF_STEP <= 2 * n <= 2 * Size(g) + HALF_STEP
  {
    hide Doubled, Size;
    TopScale(1);
    g := Neighbour(n, 252, HALF_STEP);
  }

  lemma CoarseError(n: int, d: Float)
    requires RoundsTo(n as real, d) && IsFinite(d)
    ensures Size(d) - HALF_STEP <= n <= Size(d) + HALF_STEP
  {
    hide Doubled, Size;
    RoundsToFinite(n as real, d);
    var g := CoarseNeighbour(n);
    assert Distance(n as real, d) <= Distance(n as real, g);
  }

  lemma FineError(n: int, d: Float)
    requires RoundsTo(n as real, d) && IsFinite(d) && -(0x1FF_FFFF * HALF_STEP) < 2 * n < 0x1FF_FFFF * HALF_STEP
    ensures 2 * Size(d) - HALF_STEP <= 2 * n <= 2 * Size(d) + HALF_STEP
  {
    hide Doubled, Size;
    TopScale(0);
    var g := FineNeighbour(n);
    assert Distance(n as real, d) <= Distance(n as real, g);
  }

  // ---- Where adding back overflows ----

  const LARGEST_FINITE: Float := 0x7F7F_FFFF
  const QUIET_NAN: Float := 0x7FC0_0000

  /** The largest number less b is halfway between two numbers and rounds to the upper, even one. */
  predicate RoundsUpAtTheTop(a: Float, b: Float) {
    && a == LARGEST_FINITE && b < SIGN_BIT && Units(b) < 0xFF_FFFF * HALF_STEP
    && Units(b) % (4 * HALF_STEP) == 3 * HALF_STEP
  }

  lemma OnlyTheLargest(a: Float)
    requires IsFinite(a)
    ensures Size(a) == 0x1FF_FFFE * HALF_STEP <==> a == LARGEST_FINITE
    ensures Size(a) <= 0x1FF_FFFE * HALF_STEP
  {
    hide Doubled;
    SizeAtTheTop(a);
    SizesAreBounded(a);
    TopScale(0);
    var significand := 0x80_0000 + Magnitude(a) % 0x80_0000;
    ScaleKeepsOrder(2 * significand, 0x1FF_FFFE, HALF_STEP);
  }

  /** a less b was rounded up by half a top step, to d: so a is the largest number and d is near it. */
  lemma RoundedUp(a: Float, b: Float, d: Float)
    requires IsFinite(a) && IsFinite(b) && IsFinite(d) && Size(d) > 0
    requires RoundsTo((Size(a) - Size(b)) as real, d) && Size(b) + Size(d) >= ROUNDS_TO_INFINITY
    ensures a == LARGEST_FINITE && Size(d) == 0x1FF_FFFF * HALF_STEP - Size(b)
    ensures Size(d) > 0xFF_FFFF * HALF_STEP
  {
    hide Doubled, Size, Units, RoundsTo;
    TopScale(0);
    OnlyTheLargest(a);
    var n := Size(a) - Size(b);
    CoarseError(n, d);
    if 2 * n < 0x1FF_FFFF * HALF_STEP && -(0x1FF_FFFF * HALF_STEP) < 2 * n {
      FineError(n, d);
    }
  }

  /** Numbers above 2^127 - 2^103 are whole steps of 2^104; the pattern is even when the number of steps is. */
  lemma TopNumber(d: Float) returns (k: nat)
    requires IsFinite(d) && Size(d) > 0xFF_FFFF * HALF_STEP
    ensures 0x80_0000 <= k <= 0xFF_FFFF && Size(d) == 2 * k * HALF_STEP && (d % 2 == 0 <==> k % 2 == 0)
  {
    hide Doubled;
    SizeAtTheTop(d);
    k := 0x80_0000 + Magnitude(d) % 0x80_0000;
  }

  lemma TopFloat(k: nat) returns (g: Float)
    requires k <= 0xFF_FFFF
    ensures IsFinite(g) && Size(g) == 2 * k * HALF_STEP
  {
    hide Doubled, Size;
    TopScale(k);
    g := SignedFloat(k, 253, false);
  }

  lemma HalfPower() returns (g: Float)
    ensures IsFinite(g) && Size(g) == 0xFF_FFFF * HALF_STEP
  {
    hide Doubled, Size;
    TopScale(0xFF_FFFF);
    g := SignedFloat(0xFF_FFFF, 252, false);
  }

  lemma OddSteps(units: int, k: nat)
    requires units == 0x1FF_FFFF * HALF_STEP - 2 * k * HALF_STEP && k % 2 == 0 && 0x80_0000 < k <= 0xFF_FFFF
    ensures 0 < units < 0xFF_FFFF * HALF_STEP && units % (4 * HALF_STEP) == 3 * HALF_STEP
  {
    hide Doubled;
    TopScale(0);
    var q := 0x7F_FFFF - k / 2;
    assert 4 * q + 3 == 0x1FF_FFFF - 2 * k;
    assert units == q * (4 * HALF_STEP) + 3 * HALF_STEP;
    RemainderIs(q, 4 * HALF_STEP, 3 * HALF_STEP);
    ScaleKeepsOrder(4 * q + 3, 0xFF_FFFE, HALF_STEP);
  }

  lemma RemainderIs(q: int, d: nat, r: nat)
    requires r < d
    ensures (q * d + r) % d == r
  {
    var n := q * d + r;
    QuotientBounds(n, d);
    assert (n / d - q) * d == r - n % d;
    if n / d > q {
      ScaleKeepsOrder(1, n / d - q, d);
    } else if n / d < q {
      ScaleKeepsOrder(n / d - q, -1, d);
    }
  }

  lemma RoundedUpFrom(a: Float, b: Float, d: Float)
    requires IsFinite(a) && IsFinite(b) && IsFinite(d) && Size(d) > 0
    requires RoundsTo((Size(a) - Size(b)) as real, d) && Size(b) + Size(d) >= ROUNDS_TO_INFINITY
    ensures RoundsUpAtTheTop(a, b)
  {
    RoundedUp(a, b, d);
    OnlyTheLargest(a);
    var k := TopNumber(d);
    EvenAndNoPower(Size(a) - Size(b), d, k);
    OddSteps(Size(b), k);
    hide Doubled, Units;
  }

  /** Rounding up by exactly half a step leads to an even number of steps, and never to a power of two. */
  lemma EvenAndNoPower(n: int, d: Float, k: nat)
    requires IsFinite(d) && RoundsTo(n as real, d) && Size(d) - n == HALF_STEP
    requires 0x80_0000 <= k <= 0xFF_FFFF && Size(d) == 2 * k * HALF_STEP && (d % 2 == 0 <==> k % 2 == 0)
    ensures k > 0x80_0000 && k % 2 == 0
  {
    hide Doubled, Size, RoundsTo;
    TopScale(0);
    if k == 0x80_0000 {
      var g := HalfPower();
      RoundsExactly(n as real, d, g);
    } else {
      StepBelow(n, d, k);
    }
  }

  /** Halfway between k steps and one fewer, the upper was taken for its even pattern. */
  lemma StepBelow(n: int, d: Float, k: nat)
    requires IsFinite(d) && RoundsTo(n as real, d) && Size(d) - n == HALF_STEP
    requires 0x80_0000 < k <= 0xFF_FFFF && Size(d) == 2 * k * HALF_STEP
    ensures d % 2 == 0
  {
    hide Doubled, Size, Nearest;
    TopScale(0);
    RoundsToFinite(n as real, d);
    var g := TopFloat(k - 1);
    assert Size(g) == Size(d) - 2 * HALF_STEP;
    EquallyNear(n as real, d, g);
  }

  lemma StepsBetween(units: nat) returns (k: nat)
    requires units < 0xFF_FFFF * HALF_STEP && units % (4 * HALF_STEP) == 3 * HALF_STEP
    ensures 0x80_0000 < k < 0xFF_FFFF && k % 2 == 0 && 0x1FF_FFFE * HALF_STEP - units == 2 * k * HALF_STEP - HALF_STEP
  {
    hide Doubled;
    TopScale(0);
    var q := units / (4 * HALF_STEP);
    QuotientBounds(units, 4 * HALF_STEP);
    assert units == (4 * q + 3) * HALF_STEP;
    ScaleKeepsOrder(0xFF_FFFF, 4 * q + 3, HALF_STEP);
    k := 0xFF_FFFE - 2 * q;
    assert (2 * k - 1) * HALF_STEP == 0x1FF_FFFE * HALF_STEP - units by { assert 2 * k - 1 == 0x1FF_FFFE - (4 * q + 3); }
  }

  lemma EquallyNear(x: real, d: Float, g: Float)
    requires Nearest(x, d) && IsFinite(g) && Size(g) != Size(d) && Distance(x, g) == Distance(x, d)
    ensures d % 2 == 0
  {}

  /** The lower of two numbers that n is halfway between is taken only with an even pattern. */
  lemma LowerIsEven(n: int, d: Float, k: nat)
    requires IsFinite(d) && RoundsTo(n as real, d) && n == 2 * k * HALF_STEP - HALF_STEP
    requires k <= 0xFF_FFFF && Size(d) == 2 * k * HALF_STEP - 2 * HALF_STEP
    ensures d % 2 == 0
  {
    hide Doubled, Size, Nearest;
    TopScale(0);
    RoundsToFinite(n as real, d);
    var g := TopFloat(k);
    EquallyNear(n as real, d, g);
  }

  /** Halfway between two top numbers, the one with the even number of steps is taken. */
  lemma TieGoesToEven(n: int, d: Float, k: nat)
    requires IsFinite(d) && RoundsTo(n as real, d) && n == 2 * k * HALF_STEP - HALF_STEP
    requires 0x80_0000 < k <= 0xFF_FFFF && k % 2 == 0
    ensures Size(d) == 2 * k * HALF_STEP
  {
    hide Doubled, Size, RoundsTo;
    TopScale(0);
    CoarseError(n, d);
    assert Size(d) > 0xFF_FFFF * HALF_STEP by { ScaleKeepsOrder(0x100_0000, 2 * k - 2, HALF_STEP); }
    var j := TopNumber(d);
    OneOfTwo(j, k);
    if j == k - 1 {
      LowerIsEven(n, d, k);
    }
  }

  lemma RoundsUpByHalfAStep(a: Float, b: Float, d: Float)
    requires RoundsUpAtTheTop(a, b) && IsFinite(b) && IsFinite(d) && RoundsTo((Size(a) - Size(b)) as real, d)
    ensures Size(b) + Size(d) == ROUNDS_TO_INFINITY
  {
    var k := StepsBetween(Units(b));
    assert Size(b) == Units(b);
    hide Doubled, Size, Units, RoundsTo;
    OnlyTheLargest(a);
    TieGoesToEven(Size(a) - Size(b), d, k);
    TopScale(0);
  }

  lemma OneOfTwo(j: nat, k: nat)
    requires 2 * j * HALF_STEP - HALF_STEP <= 2 * k * HALF_STEP - HALF_STEP <= 2 * j * HALF_STEP + HALF_STEP
    ensures j == k || j == k - 1
  {
    hide Doubled;
    TopScale(0);
    ScaleKeepsOrder(j, k, HALF_STEP);
    ScaleKeepsOrder(k, j + 1, HALF_STEP);
    assert (j + 1) * HALF_STEP == j * HALF_STEP + HALF_STEP;
  }

  // ---- Every real number is rounded to something ----

  ghost predicate Closest(x: real, r: Float, n: nat) {
    IsFinite(r) && forall g: Float :: g < n && IsFinite(g) ==> Distance(x, r) <= Distance(x, g)
  }

  lemma {:induction false} SomeIsClosest(x: real, n: nat) returns (r: Float)
    requires n <= 0x1_0000_0000
    ensures Closest(x, r, n)
    decreases n
  {
    hide Distance;
    if n == 0 {
      r := 0;
    } else {
      r := SomeIsClosest(x, n - 1);
      if IsFinite(n - 1) && Distance(x, n - 1) < Distance(x, r) {
        r := n - 1;
      }
    }
  }

  /** A number strictly between two equally near ones is nearer. */
  lemma BetweenIsNearer(x: real, r: Float, g: Float, m: Float)
    requires Distance(x, r) == Distance(x, g) && Size(r) < Size(m) < Size(g)
    ensures Distance(x, m) < Distance(x, r)
  {
    hide Size;
  }

  /** Of two equally near numbers, one has an even pattern: otherwise a third lies between them. */
  lemma TiesHaveAnEvenSide(x: real, r: Float, g: Float)
    requires Closest(x, r, 0x1_0000_0000) && IsFinite(g) && Distance(x, r) == Distance(x, g) && Size(r) < Size(g)
    ensures r % 2 == 0 || g % 2 == 0
  {
    hide Size, Distance, Rank, IsFinite;
    SizesFollowRanks(r, g);
    if r % 2 == 1 && g % 2 == 1 {
      var m := PatternBetween(r, g);
      SizesFollowRanks(r, m);
      SizesFollowRanks(m, g);
      BetweenIsNearer(x, r, g, m);
    }
  }

  lemma PatternBetween(r: Float, g: Float) returns (m: Float)
    requires IsFinite(r) && IsFinite(g) && Rank(r) < Rank(g) && r % 2 == 1 && g % 2 == 1
    ensures IsFinite(m) && Rank(r) < Rank(m) < Rank(g)
  {
    m := if r < SIGN_BIT then r + 1 else if g < SIGN_BIT then 0 else r - 1;
  }

  lemma SomethingIsNearest(x: real) returns (r: Float)
    ensures Nearest(x, r)
  {
    hide Size, Distance;
    var n: nat := 0x1_0000_0000;
    r := SomeIsClosest(x, n);
    if g: Float :| IsFinite(g) && Size(g) != Size(r) && Distance(x, g) == Distance(x, r) && r % 2 != 0 {
      if Size(r) < Size(g) {
        TiesHaveAnEvenSide(x, r, g);
      } else {
        TiesHaveAnEvenSide(x, g, r);
      }
      r := g;
    }
  }

  ghost function Rounded(x: real): (r: Float)
    ensures RoundsTo(x, r)
  {
    if x >= ROUNDS_TO_INFINITY as real then INFINITY
    else if x <= -(ROUNDS_TO_INFINITY as real) then Negate(INFINITY)
    else
      assert exists f :: Nearest(x, f) by { var f := SomethingIsNearest(x); }
      var f :| Nearest(x, f);
      f
  }

  // ---- The operations ----

  /** 1.0 in units of 2^-149. */
  const UNIT: int := 0x20_0000_0000_0000_0000_0000_0000_0000_0000_0000

  predicate SameSign(a: Float, b: Float) {
    a < SIGN_BIT <==> b < SIGN_BIT
  }

  function SignedInfinity(positive: bool): Float {
    if positive then INFINITY else Negate(INFINITY)
  }

  ghost predicate SumIs(a: Float, b: Float, r: Float) {
    if IsNaN(a) || IsNaN(b) then IsNaN(r)
    else if IsFinite(a) && IsFinite(b) then RoundsTo((Size(a) + Size(b)) as real, r)
    else if IsFinite(b) || a == b then r == a
    else if IsFinite(a) then r == b
    else IsNaN(r)
  }

  ghost predicate DifferenceIs(a: Float, b: Float, r: Float) {
    SumIs(a, Negate(b), r)
  }

  ghost predicate ProductIs(a: Float, b: Float, r: Float) {
    if IsNaN(a) || IsNaN(b) then IsNaN(r)
    else if IsFinite(a) && IsFinite(b) then
      RoundsTo(Size(a) as real * Size(b) as real / UNIT as real, r)
    else if Size(a) == 0 || Size(b) == 0 then IsNaN(r)
    else r == SignedInfinity(SameSign(a, b))
  }

  /** Division by a finite number other than zero; other divisors are left open. */
  ghost predicate QuotientIs(a: Float, b: Float, r: Float) {
    if IsNaN(a) then IsNaN(r)
    else if !IsFinite(b) || Size(b) == 0 then true
    else if IsFinite(a) then RoundsTo(Size(a) as real / Size(b) as real * UNIT as real, r)
    else r == SignedInfinity(SameSign(a, b))
  }
}
