/** The smoothed maximum on the real line, and the host's formula for it where no step is rounded. */
module Smoothing {
  import opened Floats
  import opened Rounding
  import opened SampleEdits
  import opened Blending

  function Larger(a: real, b: real): real { if a < b then b else a }

  function Gap(a: real, b: real): real { if a < b then b - a else a - b }

  /** The lift of two numbers whose distance falls short of the radius by so much. */
  function Lift(overlap: real, radius: real): real
    requires radius > 0.0
  {
    overlap * overlap / (4.0 * radius)
  }

  /** The larger number, lifted while the two are less than the radius apart. */
  function Smoothed(a: real, b: real, radius: real): real
    requires radius > 0.0
  {
    var overlap := Larger(radius - Gap(a, b), 0.0);
    Larger(a, b) + Lift(overlap, radius)
  }

  /** Never below either number, lifted by at most a quarter of the radius, by just that at a tie and by nothing from a
      radius on; and the order of the two does not matter. */
  lemma SmoothedIsTheLargerLifted(a: real, b: real, radius: real)
    requires radius > 0.0
    ensures Larger(a, b) <= Smoothed(a, b, radius) <= Larger(a, b) + radius / 4.0
    ensures Smoothed(a, b, radius) == Larger(a, b) <==> Gap(a, b) >= radius
    ensures Smoothed(a, b, radius) == Larger(a, b) + radius / 4.0 <==> a == b
    ensures Smoothed(b, a, radius) == Smoothed(a, b, radius)
  {
    var overlap := Larger(radius - Gap(a, b), 0.0);
    LiftOf(overlap, radius);
    hide Lift;
  }

  lemma LiftOf(overlap: real, radius: real)
    requires 0.0 <= overlap <= radius && radius > 0.0
    ensures 0.0 <= Lift(overlap, radius) <= radius / 4.0
    ensures Lift(overlap, radius) == 0.0 <==> overlap == 0.0
    ensures Lift(overlap, radius) == radius / 4.0 <==> overlap == radius
  {
    var lift := Lift(overlap, radius);
    assert lift * (4.0 * radius) == overlap * overlap;
    Squares(overlap, radius);
    assert radius / 4.0 * (4.0 * radius) == radius * radius;
    ScaleOrder(lift, radius / 4.0, 4.0 * radius);
    ScaleOrder(0.0, lift, 4.0 * radius);
  }

  lemma Squares(x: real, y: real)
    requires 0.0 <= x <= y
    ensures 0.0 <= x * x <= y * y && (x * x == 0.0 <==> x == 0.0) && (x * x == y * y <==> x == y)
  {
    if x > 0.0 {
      var p := Positive(x, x);
    }
    if x < y {
      var p := Positive(y - x, y + x);
      assert p == (y - x) * y + (y - x) * x;
      assert y * y == x * x + p;
    }
  }

  lemma Positive(x: real, y: real) returns (p: real)
    requires x > 0.0 && y > 0.0
    ensures p == x * y && p > 0.0
  {
    p := x * y;
  }

  lemma ScaleOrder(x: real, y: real, s: real)
    requires s > 0.0
    ensures x <= y <==> x * s <= y * s
    ensures x == y <==> x * s == y * s
  {
    assert y * s - x * s == (y - x) * s;
  }

  function Value(f: Float): real { Size(f) as real / UNIT as real }

  /** The host's result is the exact one. */
  predicate Exact(f: Float, x: real) { IsFinite(f) && Value(f) == x }

  /** The steps before the share is clamped lose nothing. */
  predicate ShareIsExact(ar: Arithmetic, a: Float, b: Float, radius: Float)
    requires Value(radius) > 0.0
  {
    var d := ar.subtract(a, b);
    var half := ar.multiply(HALF, d);
    var ratio := ar.divide(half, radius);
    && Exact(d, Value(a) - Value(b)) && Exact(half, 0.5 * Value(d)) && Exact(ratio, Value(half) / Value(radius))
    && Exact(ar.add(HALF, ratio), 0.5 + Value(ratio))
  }

  /** With this share of a, the remaining steps lose nothing. */
  predicate MixIsExact(ar: Arithmetic, a: Float, b: Float, radius: Float, h: Float) {
    var part := ar.multiply(ar.subtract(a, b), h);
    var rest := ar.subtract(ONE, h);
    var lift := ar.multiply(ar.multiply(radius, h), rest);
    && Exact(part, Value(ar.subtract(a, b)) * Value(h)) && Exact(ar.multiply(radius, h), Value(radius) * Value(h))
    && Exact(rest, 1.0 - Value(h)) && Exact(lift, Value(ar.multiply(radius, h)) * Value(rest))
    && Exact(ar.add(b, part), Value(b) + Value(part))
    && Exact(ar.add(ar.add(b, part), lift), Value(ar.add(b, part)) + Value(lift))
  }

  function Clamped(x: real): real { if x < 0.0 then 0.0 else if x > 1.0 then 1.0 else x }

  /** The share of a when it is d above b. */
  function ShareFor(d: real, radius: real): real
    requires radius > 0.0
  {
    Clamped(0.5 + 0.5 * d / radius)
  }

  lemma ValuesCompare(a: Float, b: Float)
    requires IsFinite(a) && IsFinite(b)
    ensures Less(a, b) <==> Value(a) < Value(b)
  {
    SizesFollowRanks(a, b);
    hide Size;
    ScaleOrder(Value(b), Value(a), UNIT as real);
  }

  lemma PlainValues()
    ensures Value(POSITIVE_ZERO) == 0.0 && Value(HALF) == 0.5 && Value(ONE) == 1.0
  {
    PlainSizes();
  }

  lemma ClampedValue(v: Float)
    requires IsFinite(v)
    ensures Exact(Clamp(v, POSITIVE_ZERO, ONE), Clamped(Value(v)))
  {
    PlainValues();
    ValuesCompare(v, POSITIVE_ZERO);
    ValuesCompare(ONE, v);
    hide Value, Less;
  }

  lemma HalfRange(d: real, half: real, radius: real)
    requires radius > 0.0 && half * radius == 0.5 * d
    ensures half <= 0.5 <==> d <= radius
    ensures -0.5 <= half <==> -radius <= d
  {
    ScaleOrder(half, 0.5, radius);
    ScaleOrder(-0.5, half, radius);
  }

  /** The formula on the real line: the clamped share mixes the two numbers and lifts the mixture. */
  lemma FormulaIsSmoothed(a: real, b: real, radius: real, d: real, h: real, v: real)
    requires radius > 0.0 && d == a - b && h == ShareFor(d, radius)
    requires v == b + d * h + radius * h * (1.0 - h)
    ensures v == Smoothed(a, b, radius)
  {
    var half := 0.5 * d / radius;
    HalfRange(d, half, radius);
    if -radius < d < radius {
      Lifted(d, half, radius);
      assert Gap(d, 0.0) == Gap(a, b);
    }
  }

  lemma Lifted(d: real, half: real, radius: real)
    requires -radius < d < radius && half * radius == 0.5 * d
    ensures d * (0.5 + half) + radius * (0.5 + half) * (0.5 - half)
         == Larger(d, 0.0) + Lift(radius - Gap(d, 0.0), radius)
  {
    var h, overlap := 0.5 + half, radius - Gap(d, 0.0);
    var lift := Lift(overlap, radius);
    assert lift * (4.0 * radius) == overlap * overlap;
    assert overlap * overlap == radius * radius - 2.0 * Gap(d, 0.0) * radius + d * d;
    assert radius * half * half == 0.5 * d * half;
    assert d * half * (4.0 * radius) == 2.0 * d * d;
    assert (d * 0.5 + d * half + radius * 0.25 - 0.5 * d * half - Larger(d, 0.0)) * (4.0 * radius) == overlap * overlap;
    ScaleOrder(lift, d * 0.5 + d * half + radius * 0.25 - 0.5 * d * half - Larger(d, 0.0), 4.0 * radius);
  }

  lemma ShareValue(ar: Arithmetic, a: Float, b: Float, radius: Float)
    requires Value(radius) > 0.0 && ShareIsExact(ar, a, b, radius)
    ensures Exact(ar.subtract(a, b), Value(a) - Value(b)) && IsFinite(Share(ar, ar.subtract(a, b), radius))
    ensures Value(Share(ar, ar.subtract(a, b), radius)) == ShareFor(Value(ar.subtract(a, b)), Value(radius))
  {
    ClampedValue(ar.add(HALF, ar.divide(ar.multiply(HALF, ar.subtract(a, b)), radius)));
    hide Value, Clamp, Clamped;
  }

  lemma MixValue(ar: Arithmetic, a: Float, b: Float, radius: Float, d: real, h: real) returns (v: real)
    requires MixIsExact(ar, a, b, radius, Share(ar, ar.subtract(a, b), radius))
    requires d == Value(ar.subtract(a, b)) && h == Value(Share(ar, ar.subtract(a, b), radius))
    ensures v == Value(b) + d * h + Value(radius) * h * (1.0 - h) && Exact(Blend(ar, a, b, radius), v)
  {
    v := Value(b) + d * h + Value(radius) * h * (1.0 - h);
    hide Value, Share;
  }

  /** Where the host loses nothing, its formula is the smoothed maximum. */
  lemma BlendIsSmoothed(ar: Arithmetic, a: Float, b: Float, radius: Float)
    requires Value(radius) > 0.0 && ShareIsExact(ar, a, b, radius)
    requires MixIsExact(ar, a, b, radius, Share(ar, ar.subtract(a, b), radius))
    ensures Exact(Blend(ar, a, b, radius), Smoothed(Value(a), Value(b), Value(radius)))
  {
    hide Value, Smoothed, Share, ShareFor, Blend, ShareIsExact, MixIsExact;
    ShareValue(ar, a, b, radius);
    var d := Value(ar.subtract(a, b));
    var h := ShareFor(d, Value(radius));
    var v := MixValue(ar, a, b, radius, d, h);
    FormulaIsSmoothed(Value(a), Value(b), Value(radius), d, h, v);
  }

  // ---- In binary32 ----

  ghost predicate Representable(x: real) {
    exists f :: Exact(f, x)
  }

  lemma SizeOfValue(f: Float)
    ensures Size(f) as real == Value(f) * UNIT as real
  {}

  lemma RoundedExactly(x: real, r: Float)
    requires RoundsTo(x * UNIT as real, r) && Representable(x)
    ensures Exact(r, x)
  {
    var f :| Exact(f, x);
    SizeOfValue(f);
    RoundsExactly(x * UNIT as real, r, f);
    hide Size, RoundsTo;
  }

  lemma SumIsExact(a: Float, b: Float, r: Float)
    requires IsFinite(a) && IsFinite(b) && SumIs(a, b, r) && Representable(Value(a) + Value(b))
    ensures Exact(r, Value(a) + Value(b))
  {
    hide Size, RoundsTo, Representable;
    assert (Size(a) + Size(b)) as real == (Value(a) + Value(b)) * UNIT as real;
    RoundedExactly(Value(a) + Value(b), r);
  }

  lemma DifferenceIsExact(a: Float, b: Float, r: Float)
    requires IsFinite(a) && IsFinite(b) && DifferenceIs(a, b, r) && Representable(Value(a) - Value(b))
    ensures Exact(r, Value(a) - Value(b))
  {
    hide SumIs, Representable;
    NegationFlips(b);
    hide Size;
    assert Value(Negate(b)) == -Value(b);
    SumIsExact(a, Negate(b), r);
  }

  lemma ProductIsExact(a: Float, b: Float, r: Float)
    requires IsFinite(a) && IsFinite(b) && ProductIs(a, b, r) && Representable(Value(a) * Value(b))
    ensures Exact(r, Value(a) * Value(b))
  {
    hide Size, RoundsTo, Representable;
    RealProduct(Size(a) as real, Size(b) as real, UNIT as real);
    RoundedExactly(Value(a) * Value(b), r);
  }

  lemma RealProduct(x: real, y: real, u: real)
    requires u > 0.0
    ensures x * y / u == x / u * (y / u) * u
  {
    var v, w := x / u, y / u;
    assert x == v * u && y == w * u;
    assert x * y == v * w * u * u;
  }

  lemma QuotientIsExact(a: Float, b: Float, r: Float)
    requires IsFinite(a) && IsFinite(b) && Value(b) > 0.0 && QuotientIs(a, b, r) && Representable(Value(a) / Value(b))
    ensures Exact(r, Value(a) / Value(b))
  {
    SizeOfValue(b);
    hide Size, RoundsTo, Representable;
    RealQuotient(Size(a) as real, Size(b) as real, UNIT as real);
    RoundedExactly(Value(a) / Value(b), r);
  }

  lemma RealQuotient(x: real, y: real, u: real)
    requires u > 0.0 && y > 0.0
    ensures y / u > 0.0 && x / y == x / u / (y / u)
  {
    var v, w := x / u, y / u;
    assert x == v * u && y == w * u;
    var q := v / w;
    assert q * w == v;
    assert q * y == x;
  }

  ghost predicate ShareRepresentable(d: real, radius: real)
    requires radius > 0.0
  {
    && Representable(d) && Representable(0.5 * d) && Representable(0.5 * d / radius)
    && Representable(0.5 + 0.5 * d / radius)
  }

  ghost predicate MixRepresentable(b: real, radius: real, d: real, h: real) {
    && Representable(d * h) && Representable(radius * h) && Representable(1.0 - h) && Representable(radius * h * (1.0 - h))
    && Representable(b + d * h) && Representable(b + d * h + radius * h * (1.0 - h))
  }

  /** Every step of the formula on the real line gives a binary32 number. */
  ghost predicate StepsRepresentable(a: real, b: real, radius: real)
    requires radius > 0.0
  {
    ShareRepresentable(a - b, radius) && MixRepresentable(b, radius, a - b, ShareFor(a - b, radius))
  }

  lemma ShareSteps(ar: Arithmetic, a: Float, b: Float, radius: Float)
    requires Binary32(ar) && IsFinite(a) && IsFinite(b) && IsFinite(radius) && Value(radius) > 0.0
    requires ShareRepresentable(Value(a) - Value(b), Value(radius))
    ensures ShareIsExact(ar, a, b, radius)
  {
    hide Value, Representable, SumIs, DifferenceIs, ProductIs, QuotientIs;
    PlainValues();
    var d := ar.subtract(a, b);
    DifferenceIsExact(a, b, d);
    var half := ar.multiply(HALF, d);
    ProductIsExact(HALF, d, half);
    var ratio := ar.divide(half, radius);
    QuotientIsExact(half, radius, ratio);
    SumIsExact(HALF, ratio, ar.add(HALF, ratio));
  }

  lemma MixSteps(ar: Arithmetic, a: Float, b: Float, radius: Float, h: Float)
    requires Binary32(ar) && IsFinite(ar.subtract(a, b)) && IsFinite(b) && IsFinite(radius) && IsFinite(h)
    requires MixRepresentable(Value(b), Value(radius), Value(ar.subtract(a, b)), Value(h))
    ensures MixIsExact(ar, a, b, radius, h)
  {
    hide Value, Representable, SumIs, DifferenceIs, ProductIs, QuotientIs;
    PlainValues();
    var d := ar.subtract(a, b);
    var part, scaled, rest := ar.multiply(d, h), ar.multiply(radius, h), ar.subtract(ONE, h);
    ProductIsExact(d, h, part);
    ProductIsExact(radius, h, scaled);
    DifferenceIsExact(ONE, h, rest);
    var lift, mixed := ar.multiply(scaled, rest), ar.add(b, part);
    assert Value(scaled) * Value(rest) == Value(radius) * Value(h) * (1.0 - Value(h));
    ProductIsExact(scaled, rest, lift);
    SumIsExact(b, part, mixed);
    assert Value(mixed) + Value(lift)
        == Value(b) + Value(d) * Value(h) + Value(radius) * Value(h) * (1.0 - Value(h));
    SumIsExact(mixed, lift, ar.add(mixed, lift));
  }

  /** In binary32, where the steps are numbers, the smoothed maximum of two densities is the larger one, lifted. */
  lemma BinaryBlendIsSmoothed(ar: Arithmetic, a: Float, b: Float, radius: Float)
    requires Binary32(ar) && IsFinite(a) && IsFinite(b) && IsFinite(radius) && Value(radius) > 0.0
    requires StepsRepresentable(Value(a), Value(b), Value(radius))
    ensures Exact(Blend(ar, a, b, radius), Smoothed(Value(a), Value(b), Value(radius)))
  {
    hide ShareRepresentable, MixRepresentable, Binary32, ShareIsExact, MixIsExact, Value, Smoothed, Share, ShareFor, Blend;
    ShareSteps(ar, a, b, radius);
    ShareValue(ar, a, b, radius);
    MixSteps(ar, a, b, radius, Share(ar, ar.subtract(a, b), radius));
    BlendIsSmoothed(ar, a, b, radius);
  }
}
