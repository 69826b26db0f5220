/** The smoothed maximum in binary32: finite, infinite or not a number, told from its two values. */
module Blending {
  import opened Numbers
  import opened Floats
  import opened Rounding
  import opened SampleEdits

  /** Sums, differences, products and quotients are rounded correctly, and smoothing radii are at most 65536 grid units. */
  ghost predicate Binary32(ar: Arithmetic) {
    && (forall a, b :: SumIs(a, b, ar.add(a, b)))
    && (forall a, b :: DifferenceIs(a, b, ar.subtract(a, b)))
    && (forall a, b :: ProductIs(a, b, ar.multiply(a, b)))
    && (forall a, b :: QuotientIs(a, b, ar.divide(a, b)))
    && ar.gridUnits(0) == POSITIVE_ZERO
    && (forall u :: u > 0 ==> SmoothingRadius(ar.gridUnits(u)))
  }

  predicate SmoothingRadius(r: Float) {
    IsFinite(r) && 0 < Size(r) <= 65536 * UNIT
  }

  // ---- Sizes of plain numbers ----

  lemma PlainSizes()
    ensures Size(POSITIVE_ZERO) == 0 && Size(ONE) == UNIT && 2 * Size(HALF) == UNIT
  {
    UnitIsDoubled();
    TwentyThreeDoublings();
    DoubledTwice(1, 23, 125);
    DoubledTwice(1, 23, 126);
    DoubledTwice(1, 148, 1);
    assert Units(HALF) == Doubled(0x80_0000, 125) && Units(ONE) == Doubled(0x80_0000, 126);
  }

  lemma TwentyThreeDoublings()
    ensures Doubled(1, 23) == 0x80_0000
  {
    TwentyFourDoublings();
    DoubledTwice(1, 23, 1);
  }

  lemma UnitIsDoubled()
    ensures Doubled(1, 149) == UNIT
  {
    hide Doubled;
    ManyDoublings();
    DoubledSquares(37);
    DoubledSquares(74);
    DoublingsOneMore(74);
  }

  lemma ManyDoublings()
    ensures Doubled(1, 37) == 0x20_0000_0000
  {
    EighteenDoublings();
    hide Doubled;
    DoubledSquares(18);
    DoublingsOneMore(18);
  }

  lemma EighteenDoublings()
    ensures Doubled(1, 18) == 0x4_0000
  {
    assert Doubled(1, 3) == 8;
    hide Doubled;
    DoubledSquares(3);
    DoublingsThreeMore(6);
    DoubledSquares(9);
  }

  lemma DoublingsThreeMore(n: nat)
    ensures Doubled(1, n + 3) == 8 * Doubled(1, n)
  {
    DoubledTwice(1, n, 3);
    DoubledIsProduct(Doubled(1, n), 3);
  }

  lemma DoublingsOneMore(m: nat)
    ensures Doubled(1, m + m + 1) == 2 * Doubled(1, m + m)
  {}

  /** The shares clamped between zero and one. */
  lemma ClampedShare(v: Float)
    requires !IsNaN(v)
    ensures
      var h := Clamp(v, POSITIVE_ZERO, ONE);
      && IsFinite(h) && 0 <= Size(h) <= UNIT
      && (v == INFINITY || (IsFinite(v) && Size(v) >= UNIT) ==> Size(h) == UNIT)
      && (v == INFINITY ==> h == ONE)
      && (v == Negate(INFINITY) || (IsFinite(v) && Size(v) <= 0) ==> Size(h) == 0)
  {
    hide Doubled, Size;
    PlainSizes();
    SizesFollowRanks(v, POSITIVE_ZERO);
    SizesFollowRanks(POSITIVE_ZERO, v);
    SizesFollowRanks(ONE, v);
    SizesFollowRanks(v, ONE);
  }

  /** The difference overflows in the reals of binary32 exactly when the predicate on its two numbers says so. */
  lemma OverflowIsReal(a: Float, b: Float)
    requires IsFinite(a) && IsFinite(b)
    ensures DifferenceOverflows(a, b) <==> Size(a) - Size(b) >= ROUNDS_TO_INFINITY
  {
    PlainSizes();
    SizesFollowRanks(POSITIVE_ZERO, a);
    SizesFollowRanks(b, POSITIVE_ZERO);
    SizesAreBounded(a);
    SizesAreBounded(b);
    hide Doubled, Units;
  }

  // ---- The share ----

  /** 131072.0, twice the largest smoothing radius. */
  lemma TwiceTheRadius(negative: bool) returns (g: Float)
    ensures IsFinite(g) && Size(g) == if negative then -131072 * UNIT else 131072 * UNIT
  {
    UnitIsDoubled();
    SeventeenDoublings();
    DoubledTwice(1, 17, 149);
    DoubledIsProduct(0x2_0000, 149);
    hide Doubled, Size;
    g := SignedFloat(1, 166, negative);
  }

  lemma SeventeenDoublings()
    ensures Doubled(1, 17) == 0x2_0000
  {
    EighteenDoublings();
    DoubledTwice(1, 17, 1);
  }

  lemma HalfIsRounded(d: Float, half: Float)
    requires IsFinite(d) && ProductIs(HALF, d, half)
    ensures RoundsTo(Size(d) as real / 2.0, half)
  {
    PlainSizes();
    hide Doubled, Size, RoundsTo;
    HalfIsHalf(Size(HALF) as real, Size(d) as real, UNIT as real);
  }

  lemma HalfIsHalf(h: real, d: real, u: real)
    requires u > 0.0 && 2.0 * h == u
    ensures h * d / u == d / 2.0
  {
    assert h * d == u * (d / 2.0);
  }

  lemma RatioIsLarge(m: real, r: real, most: real, u: real)
    requires 0.0 < r <= most && u > 0.0
    ensures m >= most ==> m / r * u >= u
    ensures m <= -most ==> m / r * u <= -u
  {
    if m >= most {
      assert m / r >= 1.0;
    } else if m <= -most {
      assert m / r <= -1.0;
    }
  }

  /** Beyond four times the largest radius the share is all or nothing. */
  lemma ShareOfALargeDifference(ar: Arithmetic, d: Float, radius: Float)
    requires Binary32(ar) && SmoothingRadius(radius) && IsFinite(d)
    ensures Size(d) >= 262144 * UNIT ==> Size(Share(ar, d, radius)) == UNIT
    ensures Size(d) <= -262144 * UNIT ==> Size(Share(ar, d, radius)) == 0
    ensures IsFinite(Share(ar, d, radius)) && 0 <= Size(Share(ar, d, radius)) <= UNIT
  {
    var half := ar.multiply(HALF, d);
    var ratio := ar.divide(half, radius);
    var v := ar.add(HALF, ratio);
    assert ProductIs(HALF, d, half) && QuotientIs(half, radius, ratio) && SumIs(HALF, ratio, v);
    hide Binary32, ProductIs, QuotientIs, SumIs, Doubled, Size, RoundsTo, Clamp;
    HalfIsRounded(d, half);
    HalvedDifference(d, half);
    RatioOfHalf(half, radius, ratio);
    CenteredRatio(ratio, v);
    ClampedShare(v);
  }

  lemma HalvedDifference(d: Float, half: Float)
    requires IsFinite(d) && RoundsTo(Size(d) as real / 2.0, half)
    ensures IsFinite(half)
    ensures Size(d) >= 262144 * UNIT ==> Size(half) >= 131072 * UNIT
    ensures Size(d) <= -262144 * UNIT ==> Size(half) <= -131072 * UNIT
  {
    hide Doubled, Size, RoundsTo;
    var x := Size(d) as real / 2.0;
    SizesAreBounded(d);
    RoundsToFinite(x, half);
    if Size(d) >= 262144 * UNIT {
      var g := TwiceTheRadius(false);
      RoundsNoLower(x, half, g);
    } else if Size(d) <= -262144 * UNIT {
      var g := TwiceTheRadius(true);
      RoundsNoHigher(x, half, g);
    }
  }

  lemma RatioOfHalf(half: Float, radius: Float, ratio: Float)
    requires IsFinite(half) && SmoothingRadius(radius) && QuotientIs(half, radius, ratio)
    ensures !IsNaN(ratio)
    ensures Size(half) >= 131072 * UNIT ==> ratio == INFINITY || (IsFinite(ratio) && Size(ratio) >= UNIT)
    ensures Size(half) <= -131072 * UNIT ==> ratio == Negate(INFINITY) || (IsFinite(ratio) && Size(ratio) <= -UNIT)
  {
    PlainSizes();
    hide Doubled, Size, RoundsTo;
    var x := Size(half) as real / Size(radius) as real * UNIT as real;
    RoundsToFinite(x, ratio);
    RatioIsLarge(Size(half) as real, Size(radius) as real, 65536.0 * UNIT as real, UNIT as real);
    if Size(half) >= 131072 * UNIT {
      RoundsNoLower(x, ratio, ONE);
    } else if Size(half) <= -131072 * UNIT {
      NegativeOne();
      RoundsNoHigher(x, ratio, Negate(ONE));
    }
  }

  lemma NegativeOne()
    ensures IsFinite(Negate(ONE)) && Size(Negate(ONE)) == -UNIT
  {
    PlainSizes();
    assert Units(Negate(ONE)) == Units(ONE);
  }

  lemma CenteredRatio(ratio: Float, v: Float)
    requires !IsNaN(ratio) && SumIs(HALF, ratio, v)
    ensures !IsNaN(v)
    ensures ratio == INFINITY ==> v == INFINITY
    ensures ratio == Negate(INFINITY) ==> v == Negate(INFINITY)
    ensures IsFinite(ratio) && Size(ratio) >= UNIT ==> v == INFINITY || (IsFinite(v) && Size(v) >= UNIT)
    ensures IsFinite(ratio) && Size(ratio) <= -UNIT ==> v == Negate(INFINITY) || (IsFinite(v) && Size(v) <= 0)
  {
    PlainSizes();
    hide Doubled, Size, RoundsTo;
    if IsFinite(ratio) {
      var x := (Size(HALF) + Size(ratio)) as real;
      RoundsToFinite(x, v);
      if Size(ratio) >= UNIT {
        RoundsNoLower(x, v, ONE);
      } else if Size(ratio) <= -UNIT {
        RoundsNoHigher(x, v, POSITIVE_ZERO);
      }
    }
  }

  // ---- The blend ----

  /** A share of a number is no larger than the number, and all or nothing of it is exact. */
  lemma ShareOf(d: Float, h: Float, p: Float)
    requires IsFinite(d) && IsFinite(h) && 0 <= Size(h) <= UNIT && ProductIs(d, h, p)
    ensures IsFinite(p)
    ensures if Size(d) >= 0 then 0 <= Size(p) <= Size(d) else Size(d) <= Size(p) <= 0
    ensures Size(h) == UNIT ==> Size(p) == Size(d)
    ensures Size(h) == 0 ==> Size(p) == 0
  {
    hide Doubled, Size, RoundsTo;
    var x := Size(d) as real * Size(h) as real / UNIT as real;
    ShareIsBetween(Size(d) as real, Size(h) as real, UNIT as real, x);
    ShareRounds(x, d, p);
  }

  lemma ShareRounds(x: real, d: Float, p: Float)
    requires IsFinite(d) && RoundsTo(x, p)
    requires if Size(d) >= 0 then 0.0 <= x <= Size(d) as real else Size(d) as real <= x <= 0.0
    ensures IsFinite(p)
    ensures if Size(d) >= 0 then 0 <= Size(p) <= Size(d) else Size(d) <= Size(p) <= 0
    ensures x == Size(d) as real ==> Size(p) == Size(d)
    ensures x == 0.0 ==> Size(p) == 0
  {
    PlainSizes();
    hide Doubled, Size, RoundsTo;
    if Size(d) >= 0 {
      RoundsNoLower(x, p, POSITIVE_ZERO);
      RoundsNoHigher(x, p, d);
    } else {
      RoundsNoLower(x, p, d);
      RoundsNoHigher(x, p, POSITIVE_ZERO);
    }
    if x == Size(d) as real { RoundsExactly(x, p, d); }
    if x == 0.0 { RoundsExactly(x, p, POSITIVE_ZERO); }
  }

  lemma ShareIsBetween(d: real, h: real, u: real, x: real)
    requires u > 0.0 && 0.0 <= h <= u && x == d * h / u
    ensures if d >= 0.0 then 0.0 <= x <= d else d <= x <= 0.0
    ensures h == u ==> x == d
    ensures h == 0.0 ==> x == 0.0
  {
    var part := h / u;
    assert 0.0 <= part <= 1.0;
    assert x == d * part;
  }

  lemma RestOfOne(h: Float, rest: Float)
    requires IsFinite(h) && 0 <= Size(h) <= UNIT && DifferenceIs(ONE, h, rest)
    ensures IsFinite(rest) && 0 <= Size(rest) <= UNIT && (Size(h) == UNIT ==> Size(rest) == 0)
  {
    PlainSizes();
    NegationFlips(h);
    hide Doubled, Size, RoundsTo;
    var x := (Size(ONE) - Size(h)) as real;
    RoundsNoLower(x, rest, POSITIVE_ZERO);
    RoundsNoHigher(x, rest, ONE);
    if Size(h) == UNIT { RoundsExactly(x, rest, POSITIVE_ZERO); }
  }

  lemma NegationFlips(f: Float)
    ensures Size(Negate(f)) == -Size(f)
  {
    assert Units(Negate(f)) == Units(f);
  }

  /** The smoothing added on top: at most the radius, and none where the share is all or nothing. */
  lemma SmoothingOnTop(ar: Arithmetic, radius: Float, h: Float)
    requires Binary32(ar) && SmoothingRadius(radius) && IsFinite(h) && 0 <= Size(h) <= UNIT
    ensures
      var top := ar.multiply(ar.multiply(radius, h), ar.subtract(ONE, h));
      && IsFinite(top) && 0 <= Size(top) <= 65536 * UNIT
      && (Size(h) == 0 || Size(h) == UNIT ==> Size(top) == 0)
  {
    var scaled, rest := ar.multiply(radius, h), ar.subtract(ONE, h);
    var top := ar.multiply(scaled, rest);
    assert ProductIs(radius, h, scaled) && DifferenceIs(ONE, h, rest) && ProductIs(scaled, rest, top);
    hide Binary32, ProductIs, DifferenceIs, Size;
    ShareOf(radius, h, scaled);
    RestOfOne(h, rest);
    ShareOf(scaled, rest, top);
  }

  /** Two finite numbers and the smoothing on top stay finite as long as the first sum does. */
  lemma SumsOnTop(b: Float, p: Float, s: Float, top: Float, r: Float)
    requires IsFinite(b) && IsFinite(p) && SumIs(b, p, s) && IsFinite(top) && SumIs(s, top, r)
    requires 0 <= Size(top) <= 65536 * UNIT && (Size(top) == 0 || Size(p) <= 262144 * UNIT)
    requires Size(b) + Size(p) > -(ROUNDS_TO_INFINITY as int)
    ensures if Size(b) + Size(p) >= ROUNDS_TO_INFINITY then r == INFINITY else IsFinite(r)
  {
    hide Doubled, Size, RoundsTo;
    TopScale(0);
    RoundsToFinite((Size(b) + Size(p)) as real, s);
    if IsFinite(s) {
      OnlyTheLargest(s);
      SizesAreBounded(s);
      RoundsToFinite((Size(s) + Size(top)) as real, r);
    }
    UnitIsSmall();
    OnlyTheLargest(b);
  }

  lemma UnitIsSmall()
    ensures 262144 * UNIT < HALF_STEP
  {
    EighteenDoublings();
    UnitIsDoubled();
    DoubledTwice(1, 18, 149);
    DoubledIsProduct(Doubled(1, 18), 149);
    DoubledGrows(1, 168, 252);
    DoublingsOneMoreThan(167);
  }

  lemma DoublingsOneMoreThan(n: nat)
    ensures Doubled(1, n + 1) == 2 * Doubled(1, n) && Doubled(1, n) > 0
  {
    DoubledGrows(1, 0, n);
  }

  /** Infinities pass through products with, and quotients by, positive numbers. */
  lemma ScaledInfinity(d: Float, positive: Float, r: Float)
    requires Magnitude(d) == INFINITY && IsFinite(positive) && Size(positive) > 0
    ensures ProductIs(positive, d, r) ==> r == d
    ensures ProductIs(d, positive, r) ==> r == d
    ensures QuotientIs(d, positive, r) ==> r == d
  {
    PositivePatterns(positive);
    InfinityIsNotZero(d);
    hide Size;
  }

  lemma InfinityIsNotZero(d: Float)
    requires Magnitude(d) == INFINITY
    ensures Size(d) != 0
  {
    assert Magnitude(d) / 0x80_0000 == 255 && Magnitude(d) % 0x80_0000 == 0;
    DoubledGrows(0x80_0000, 0, 254);
    hide Doubled;
  }

  lemma ShareOfAnInfiniteDifference(ar: Arithmetic, d: Float, radius: Float)
    requires Binary32(ar) && SmoothingRadius(radius) && Magnitude(d) == INFINITY
    ensures IsFinite(Share(ar, d, radius)) && 0 <= Size(Share(ar, d, radius)) <= UNIT
    ensures d == INFINITY ==> Size(Share(ar, d, radius)) == UNIT
    ensures d == Negate(INFINITY) ==> Size(Share(ar, d, radius)) == 0
  {
    var half := ar.multiply(HALF, d);
    var ratio := ar.divide(half, radius);
    var v := ar.add(HALF, ratio);
    assert ProductIs(HALF, d, half) && QuotientIs(half, radius, ratio) && SumIs(HALF, ratio, v);
    PlainSizes();
    hide Binary32, ProductIs, QuotientIs, Size, RoundsTo, Clamp;
    ScaledInfinity(d, HALF, half);
    ScaledInfinity(half, radius, ratio);
    ClampedShare(v);
  }

  lemma InfiniteTimesNothing(d: Float, h: Float, p: Float)
    requires Magnitude(d) == INFINITY && IsFinite(h) && Size(h) == 0 && ProductIs(d, h, p)
    ensures IsNaN(p)
  {}

  /** An infinite difference: upwards it carries through, and nothing of it downwards is not a number. */
  lemma BlendOfAnInfiniteDifference(ar: Arithmetic, a: Float, b: Float, radius: Float)
    requires Binary32(ar) && SmoothingRadius(radius) && IsFinite(b) && Magnitude(ar.subtract(a, b)) == INFINITY
    ensures ar.subtract(a, b) == INFINITY ==> Blend(ar, a, b, radius) == INFINITY
    ensures ar.subtract(a, b) == Negate(INFINITY) ==> IsNaN(Blend(ar, a, b, radius))
  {
    var d := ar.subtract(a, b);
    var h := Share(ar, d, radius);
    var p := ar.multiply(d, h);
    var s := ar.add(b, p);
    var top := ar.multiply(ar.multiply(radius, h), ar.subtract(ONE, h));
    assert ProductIs(d, h, p) && SumIs(b, p, s) && SumIs(s, top, ar.add(s, top));
    hide Binary32, ProductIs, Size, RoundsTo, Share;
    ShareOfAnInfiniteDifference(ar, d, radius);
    SmoothingOnTop(ar, radius, h);
    if Size(h) == 0 {
      InfiniteTimesNothing(d, h, p);
    } else {
      ScaledInfinity(d, h, p);
    }
  }

  lemma PositivePatterns(f: Float)
    requires Size(f) > 0
    ensures f < SIGN_BIT
  {}

  /** A finite difference: the blend overflows exactly when adding it back to b does, which takes all of it. */
  lemma BlendOfAFiniteDifference(ar: Arithmetic, a: Float, b: Float, radius: Float)
    requires Binary32(ar) && SmoothingRadius(radius) && IsFinite(a) && IsFinite(b) && IsFinite(ar.subtract(a, b))
    ensures
      var d, r := ar.subtract(a, b), Blend(ar, a, b, radius);
      if Size(d) >= 262144 * UNIT && Size(b) + Size(d) >= ROUNDS_TO_INFINITY then r == INFINITY else IsFinite(r)
  {
    var d := ar.subtract(a, b);
    var h := Share(ar, d, radius);
    var p := ar.multiply(d, h);
    var s := ar.add(b, p);
    var top := ar.multiply(ar.multiply(radius, h), ar.subtract(ONE, h));
    assert ProductIs(d, h, p) && SumIs(b, p, s) && SumIs(s, top, ar.add(s, top));
    hide Binary32, ProductIs, SumIs, Doubled, Size, RoundsTo, Share;
    ShareOfALargeDifference(ar, d, radius);
    ShareOf(d, h, p);
    SmoothingOnTop(ar, radius, h);
    OnlyTheLargest(b);
    SizesAreBounded(b);
    UnitIsSmall();
    TopScale(0);
    SumsOnTop(b, p, s, top, ar.add(s, top));
  }

  /** Adding a rounded difference back overflows exactly in that one case, and the difference is then a large one. */
  lemma RoundedUpExactly(a: Float, b: Float, d: Float)
    requires IsFinite(a) && IsFinite(b) && IsFinite(d) && RoundsTo((Size(a) - Size(b)) as real, d)
    ensures Size(d) >= 262144 * UNIT && Size(b) + Size(d) >= ROUNDS_TO_INFINITY <==> RoundsUpAtTheTop(a, b)
  {
    UnitIsSmall();
    OnlyTheLargest(b);
    if RoundsUpAtTheTop(a, b) {
      RoundsUpByHalfAStep(a, b, d);
      TopScale(0);
    } else if Size(d) >= 262144 * UNIT && Size(b) + Size(d) >= ROUNDS_TO_INFINITY {
      RoundedUpFrom(a, b, d);
    }
    hide Doubled, Size, RoundsTo, Units;
  }

  lemma RoundedDifference(ar: Arithmetic, a: Float, b: Float)
    requires Binary32(ar) && IsFinite(a) && IsFinite(b)
    ensures RoundsTo((Size(a) - Size(b)) as real, ar.subtract(a, b))
    ensures ar.subtract(a, b) == INFINITY <==> DifferenceOverflows(a, b)
    ensures ar.subtract(a, b) == Negate(INFINITY) <==> DifferenceOverflows(b, a)
    ensures IsFinite(ar.subtract(a, b)) <==> !DifferenceOverflows(a, b) && !DifferenceOverflows(b, a)
  {
    hide Binary32, Doubled, Size, RoundsTo, DifferenceOverflows;
    DifferenceOf(ar, a, b);
    NegationFlips(b);
    RoundsToFinite((Size(a) - Size(b)) as real, ar.subtract(a, b));
    OverflowIsReal(a, b);
    OverflowIsReal(b, a);
  }

  lemma DifferenceOf(ar: Arithmetic, a: Float, b: Float)
    requires Binary32(ar)
    ensures DifferenceIs(a, b, ar.subtract(a, b))
  {
    hide DifferenceIs, ProductIs, QuotientIs, SumIs;
  }

  /** What overflows in the smoothed maximum: a difference past the largest number, or one rounded up beside it. */
  predicate BlendOverflows(a: Float, b: Float) {
    DifferenceOverflows(a, b) || RoundsUpAtTheTop(a, b)
  }

  /** In binary32 the smoothed maximum of two finite numbers overflows exactly when their difference does, or when the larger
      is the largest number and the difference is rounded up; it is not a number exactly when the difference overflows
      downwards; and otherwise it is finite. */
  lemma BlendOverflowsExactly(ar: Arithmetic, a: Float, b: Float, radius: Float)
    requires Binary32(ar) && SmoothingRadius(radius) && IsFinite(a) && IsFinite(b)
    ensures
      var r := Blend(ar, a, b, radius);
      && (r == INFINITY <==> BlendOverflows(a, b))
      && (IsNaN(r) <==> DifferenceOverflows(b, a))
      && r != Negate(INFINITY)
  {
    hide Binary32, Size, RoundsTo, Blend, DifferenceOverflows, RoundsUpAtTheTop, SmoothingRadius, Doubled, Units;
    RoundedDifference(ar, a, b);
    var d := ar.subtract(a, b);
    if IsFinite(d) {
      BlendOfAFiniteDifference(ar, a, b, radius);
      RoundedUpExactly(a, b, d);
    } else {
      BlendOfAnInfiniteDifference(ar, a, b, radius);
      OneOverflowAtMost(a, b);
      OneOverflowAtMost(b, a);
    }
  }

  lemma OneOverflowAtMost(a: Float, b: Float)
    ensures DifferenceOverflows(b, a) ==> !BlendOverflows(a, b)
  {
    hide Units;
  }

  // ---- Small and huge numbers ----

  /** 2^103. */
  const SMALL: Float := 0x7300_0000

  lemma SmallUnits(a: Float)
    requires Magnitude(a) < SMALL
    ensures Units(a) < HALF_STEP
  {
    hide Doubled;
    TwentyFourDoublings();
    DoubledTwice(1, 24, 228);
    UnitsAtMost(a, 229);
    DoubledAdds(0xFF_FFFF, 0x100_0000, 228);
  }

  /** Numbers below 2^103 blend without overflow, whatever they meet. */
  lemma SmallNeverOverflows(a: Float, b: Float)
    requires Magnitude(a) < SMALL && IsFinite(b)
    ensures !BlendOverflows(a, b)
  {
    SmallUnits(a);
    OverflowIsReal(a, b);
    SizesAreBounded(b);
    TopScale(0);
    hide Doubled, Units;
  }

  /** 1.75 * 2^127: its distance to its own negation is past the largest number. */
  const HUGE: Float := 0x7F60_0000

  lemma HugeOverflows()
    ensures IsFinite(HUGE) && BlendOverflows(HUGE, Negate(HUGE))
  {
    SizeAtTheTop(HUGE);
    SizeAtTheTop(Negate(HUGE));
    TopScale(0);
    hide Doubled, Units;
  }

  /** 1.5 * 2^104, the least number the largest one is rounded up beside. */
  const STEP_AND_A_HALF: Float := 0x73C0_0000

  /** No difference overflows here, but adding the rounded difference back does. */
  lemma LargestMeetsAStepAndAHalf()
    ensures RoundsUpAtTheTop(LARGEST_FINITE, STEP_AND_A_HALF) && !DifferenceOverflows(LARGEST_FINITE, STEP_AND_A_HALF)
  {
    hide Doubled;
    assert Units(STEP_AND_A_HALF) == Doubled(0xC0_0000, 230);
    hide Units;
    ThreeQuarters();
    DoubledTwice(3, 22, 230);
    TopScale(3);
    RemainderIs(0, 4 * HALF_STEP, 3 * HALF_STEP);
  }

  lemma ThreeQuarters()
    ensures Doubled(3, 22) == 0xC0_0000
  {
    TwentyThreeDoublings();
    DoubledIsProduct(3, 22);
    assert Doubled(1, 23) == 2 * Doubled(1, 22);
  }

  // ---- Such a host exists ----

  ghost function SumOf(a: Float, b: Float): (r: Float)
    ensures SumIs(a, b, r)
  {
    if IsNaN(a) || IsNaN(b) then QUIET_NAN
    else if IsFinite(a) && IsFinite(b) then Rounded((Size(a) + Size(b)) as real)
    else if IsFinite(b) || a == b then a
    else if IsFinite(a) then b
    else QUIET_NAN
  }

  ghost function ProductOf(a: Float, b: Float): (r: Float)
    ensures ProductIs(a, b, r)
  {
    if IsNaN(a) || IsNaN(b) then QUIET_NAN
    else if IsFinite(a) && IsFinite(b) then Rounded(Size(a) as real * Size(b) as real / UNIT as real)
    else if Size(a) == 0 || Size(b) == 0 then QUIET_NAN
    else SignedInfinity(SameSign(a, b))
  }

  ghost function QuotientOf(a: Float, b: Float): (r: Float)
    ensures QuotientIs(a, b, r)
  {
    if IsNaN(a) || !IsFinite(b) || Size(b) == 0 then QUIET_NAN
    else if IsFinite(a) then Rounded(Size(a) as real / Size(b) as real * UNIT as real)
    else SignedInfinity(SameSign(a, b))
  }

  /** Correct rounding asks nothing impossible. */
  lemma SomeHostIsBinary32() returns (ar: Arithmetic)
    ensures Binary32(ar)
  {
    ar := Arithmetic((a, b) => SumOf(a, b), (a, b) => SumOf(a, Negate(b)), (a, b) => ProductOf(a, b),
      (a, b) => QuotientOf(a, b), (p, s, v) => None, (p, b) => None, u => if u == 0 then POSITIVE_ZERO else ONE);
    PlainSizes();
    hide SumIs, ProductIs, QuotientIs, Size;
  }
}
