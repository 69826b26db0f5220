/** What an accepted command leaves in the samples it covers, operation by operation, told by comparisons. */
module SampleEffects {
  import opened Numbers
  import opened Floats
  import opened ChunkKeys
  import opened EditCommands
  import opened SampleEdits
  import opened PageRollback
  import opened Blending

  /** v is one of the two numbers and neither is above it. */
  predicate Highest(v: Float, a: Float, b: Float) {
    (v == a || v == b) && AtMost(a, v) && AtMost(b, v)
  }

  /** v is one of the two numbers and neither is below it. */
  predicate Lowest(v: Float, a: Float, b: Float) {
    (v == a || v == b) && AtMost(v, a) && AtMost(v, b)
  }

  predicate Smooths(radius: Float) {
    IsFinite(radius) && Less(POSITIVE_ZERO, radius)
  }

  /** In binary32 there is smoothing exactly when the command asks for it. */
  lemma SmoothsWhenAsked(ar: Arithmetic, c: EditCommand)
    requires Binary32(ar)
    ensures Smooths(ar.gridUnits(c.smoothRadius)) <==> c.smoothRadius > 0
  {
    hide Binary32;
    RadiusOf(ar, c.smoothRadius);
  }

  /** The depth of the brush, when the host finds a number for it. */
  predicate HasDepth(d: Option<Float>) {
    d.Some? && IsFinite(d.value)
  }

  /** How far the sample is from the surface of the water placed or removed: below zero inside. */
  function WaterDepth(ar: Arithmetic, c: EditCommand, p: GridPoint): Option<Float> {
    if c.shape == AXIS_ALIGNED_BOX then ar.boxDepth(p, c.box)
    else
      match ar.sphereDepth(p, c.sphere, ONE)
      case None => None
      case Some(inside) => Some(Negate(inside))
  }

  /** Digging leaves the higher of the old density and the brush; with a radius, their smoothed maximum if that is higher. */
  predicate DugTo(ar: Arithmetic, radius: Float, density: Float, brush: Float, t: Float) {
    if Smooths(radius) then
      t == if Less(density, Blend(ar, density, brush, radius)) then Blend(ar, density, brush, radius) else density
    else Highest(t, density, brush)
  }

  /** Filling leaves the lower of the old density and the brush turned round; with a radius, the mirror of digging. */
  predicate FilledTo(ar: Arithmetic, radius: Float, density: Float, brush: Float, t: Float) {
    if Smooths(radius) then DugTo(ar, radius, Negate(density), brush, Negate(t))
    else Lowest(t, density, Negate(brush))
  }

  /** The material becomes the given, authored one exactly when painted. */
  predicate PaintedExactly(s: ScalarSample, t: ScalarSample, painted: bool, material: U16) {
    if painted then t.material == material && t.authored else t.material == s.material && t.authored == s.authored
  }

  /** Where solid became air inside water, the sample carries the water's material. */
  predicate CarveEffect(ar: Arithmetic, c: EditCommand, p: GridPoint, s: ScalarSample, t: ScalarSample) {
    var brush := ar.sphereDepth(p, c.sphere, c.density);
    && HasDepth(brush) && DugTo(ar, ar.gridUnits(c.smoothRadius), s.density, brush.value, t.density) && t.water == s.water
    && PaintedExactly(s, t, Less(s.density, t.density) && AtMost(POSITIVE_ZERO, t.density) && Less(s.water, POSITIVE_ZERO),
                      STATIC_WATER_MATERIAL)
  }

  /** Where air became solid, the sample carries the command's material, if it names one. */
  predicate ConstructEffect(ar: Arithmetic, c: EditCommand, p: GridPoint, s: ScalarSample, t: ScalarSample) {
    var brush := ar.sphereDepth(p, c.sphere, c.density);
    && HasDepth(brush) && FilledTo(ar, ar.gridUnits(c.smoothRadius), s.density, brush.value, t.density) && t.water == s.water
    && PaintedExactly(s, t, Less(t.density, s.density) && AtMost(t.density, POSITIVE_ZERO) && c.material != 0, c.material)
  }

  /** Water placed reaches at least as deep as the command's, water removed at most to the turned command's; air is painted. */
  predicate WaterEffect(ar: Arithmetic, c: EditCommand, p: GridPoint, s: ScalarSample, t: ScalarSample) {
    var depth, places := WaterDepth(ar, c, p), c.operation == PLACE_STATIC_WATER;
    && HasDepth(depth) && t.density == s.density
    && (if places then Lowest(t.water, s.water, depth.value) else Highest(t.water, s.water, Negate(depth.value)))
    && PaintedExactly(s, t, places && AtMost(POSITIVE_ZERO, s.density), STATIC_WATER_MATERIAL)
  }

  /** The operations that write what they carry: a sum, a density, a material, or a material where there is air. */
  predicate PlainEffect(ar: Arithmetic, c: EditCommand, s: ScalarSample, t: ScalarSample) {
    var op := c.operation;
    && t.water == s.water
    && t.density == (if op == ADD_DENSITY then ar.add(s.density, c.density) else if op == SET_DENSITY then c.density else s.density)
    && PaintedExactly(s, t, op == PAINT_MATERIAL || (op == PLACE_MATERIAL_VOLUME && AtMost(POSITIVE_ZERO, s.density)), c.material)
  }

  /** What a command should leave at a covered sample: s before, t afterwards. */
  predicate Effect(ar: Arithmetic, c: EditCommand, p: GridPoint, s: ScalarSample, t: ScalarSample) {
    if c.operation == SDF_CARVE then CarveEffect(ar, c, p, s, t)
    else if c.operation == SDF_CONSTRUCT then ConstructEffect(ar, c, p, s, t)
    else if WaterOperation(c.operation) then WaterEffect(ar, c, p, s, t)
    else PlainEffect(ar, c, s, t)
  }

  // ---- What the operations do ----

  lemma DugDensity(ar: Arithmetic, radius: Float, density: Float, brush: Float)
    requires IsFinite(brush)
    ensures
      var v := SmoothMaximum(ar, density, brush, radius);
      var t := if Less(density, v) then v else density;
      IsFinite(t) ==> DugTo(ar, radius, density, brush, t)
  {
    hide Blend;
  }

  lemma FilledDensity(ar: Arithmetic, radius: Float, density: Float, brush: Float)
    requires IsFinite(brush)
    ensures
      var v := SmoothMinimum(ar, density, Negate(brush), radius);
      var t := if Less(v, density) then v else density;
      IsFinite(t) ==> FilledTo(ar, radius, density, brush, t)
  {
    NegationMirrors(density);
    NegationMirrors(brush);
    NegationMirrors(SmoothMaximum(ar, Negate(density), brush, radius));
    OrderMirrors(density, Negate(brush));
    OrderMirrors(Negate(brush), density);
    OrderMirrors(SmoothMinimum(ar, density, Negate(brush), radius), density);
    hide Blend, Negate, Rank;
  }

  lemma NegationMirrors(a: Float)
    ensures Negate(Negate(a)) == a && (IsFinite(Negate(a)) <==> IsFinite(a))
  {}

  lemma OrderMirrors(a: Float, b: Float)
    ensures Less(Negate(b), Negate(a)) <==> Less(a, b)
    ensures AtMost(Negate(b), Negate(a)) <==> AtMost(a, b)
  {}

  lemma Carving(ar: Arithmetic, c: EditCommand, p: GridPoint, s: ScalarSample, t: ScalarSample)
    requires ValidCommand(c) && c.operation == SDF_CARVE && Written(ar, c, p, s) == Some(t) && FiniteSample(t)
    ensures CarveEffect(ar, c, p, s, t)
  {
    hide ExpectedBounds, SmoothMaximum, DugTo, WaterBrush, Constructed;
    var brush := ar.sphereDepth(p, c.sphere, c.density);
    assert HasDepth(brush) && t == Carved(ar, c, s, brush.value);
    DugDensity(ar, ar.gridUnits(c.smoothRadius), s.density, brush.value);
  }

  lemma Constructing(ar: Arithmetic, c: EditCommand, p: GridPoint, s: ScalarSample, t: ScalarSample)
    requires ValidCommand(c) && c.operation == SDF_CONSTRUCT && Written(ar, c, p, s) == Some(t) && FiniteSample(t)
    ensures ConstructEffect(ar, c, p, s, t)
  {
    hide ExpectedBounds, SmoothMinimum, FilledTo, WaterBrush, Carved;
    var brush := ar.sphereDepth(p, c.sphere, c.density);
    assert HasDepth(brush) && t == Constructed(ar, c, s, brush.value);
    FilledDensity(ar, ar.gridUnits(c.smoothRadius), s.density, brush.value);
  }

  lemma Watering(ar: Arithmetic, c: EditCommand, p: GridPoint, s: ScalarSample, t: ScalarSample)
    requires ValidCommand(c) && WaterOperation(c.operation) && Written(ar, c, p, s) == Some(t) && FiniteSample(t)
    ensures WaterEffect(ar, c, p, s, t)
  {
    hide ExpectedBounds, Carved, Constructed;
  }

  /** A covered sample that takes the command is left as the operation should leave it. */
  lemma EditedSampleHasEffect(ar: Arithmetic, c: EditCommand, p: GridPoint, s: ScalarSample)
    requires ValidCommand(c) && Contains(c, p) && ApplyToSample(ar, c, p, s).ok
    ensures FiniteSample(ApplyToSample(ar, c, p, s).sample) && Effect(ar, c, p, s, ApplyToSample(ar, c, p, s).sample)
  {
    hide Contains, ExpectedBounds, Carved, Constructed, WaterBrush, CarveEffect, ConstructEffect, WaterEffect, SphereBrush;
    var t := Written(ar, c, p, s).value;
    if c.operation == SDF_CARVE {
      Carving(ar, c, p, s, t);
    } else if c.operation == SDF_CONSTRUCT {
      Constructing(ar, c, p, s, t);
    } else if WaterOperation(c.operation) {
      Watering(ar, c, p, s, t);
    }
  }

  // ---- What they should do, they do ----

  lemma DugIsDetermined(ar: Arithmetic, radius: Float, density: Float, brush: Float, t: Float)
    requires DugTo(ar, radius, density, brush, t)
    ensures
      var v := SmoothMaximum(ar, density, brush, radius);
      SameNumber(if Less(density, v) then v else density, t)
  {
    hide Blend;
  }

  lemma FilledIsDetermined(ar: Arithmetic, radius: Float, density: Float, brush: Float, t: Float)
    requires FilledTo(ar, radius, density, brush, t)
    ensures
      var v := SmoothMinimum(ar, density, Negate(brush), radius);
      SameNumber(if Less(v, density) then v else density, t)
  {
    NegationMirrors(density);
    NegationMirrors(brush);
    NegationMirrors(t);
    NegationMirrors(SmoothMaximum(ar, Negate(density), brush, radius));
    OrderMirrors(density, Negate(brush));
    OrderMirrors(Negate(brush), density);
    OrderMirrors(SmoothMinimum(ar, density, Negate(brush), radius), density);
    hide Blend, Negate, Rank;
  }

  lemma SameNumbersCompareAlike(a: Float, b: Float, other: Float)
    requires SameNumber(a, b)
    ensures Less(a, other) <==> Less(b, other)
    ensures Less(other, a) <==> Less(other, b)
    ensures AtMost(a, other) <==> AtMost(b, other)
    ensures AtMost(other, a) <==> AtMost(other, b)
  {}

  lemma CarveIsDetermined(ar: Arithmetic, c: EditCommand, p: GridPoint, s: ScalarSample, t: ScalarSample)
    requires ValidCommand(c) && c.operation == SDF_CARVE && CarveEffect(ar, c, p, s, t)
    ensures var w := Written(ar, c, p, s); w.Some? && SameSample(w.value, t)
  {
    hide ExpectedBounds, SmoothMaximum, WaterBrush, Constructed, DugTo, Less, AtMost, SameNumber;
    var brush := ar.sphereDepth(p, c.sphere, c.density).value;
    var w := Carved(ar, c, s, brush);
    DugIsDetermined(ar, ar.gridUnits(c.smoothRadius), s.density, brush, t.density);
    SameNumbersCompareAlike(w.density, t.density, s.density);
    SameNumbersCompareAlike(w.density, t.density, POSITIVE_ZERO);
    NothingIsBelowItself(s.density);
    SameAsItself(t);
  }

  lemma ConstructIsDetermined(ar: Arithmetic, c: EditCommand, p: GridPoint, s: ScalarSample, t: ScalarSample)
    requires ValidCommand(c) && c.operation == SDF_CONSTRUCT && ConstructEffect(ar, c, p, s, t)
    ensures var w := Written(ar, c, p, s); w.Some? && SameSample(w.value, t)
  {
    hide ExpectedBounds, SmoothMinimum, WaterBrush, Carved, FilledTo, Less, AtMost, SameNumber;
    var brush := ar.sphereDepth(p, c.sphere, c.density).value;
    var w := Constructed(ar, c, s, brush);
    FilledIsDetermined(ar, ar.gridUnits(c.smoothRadius), s.density, brush, t.density);
    SameNumbersCompareAlike(w.density, t.density, s.density);
    SameNumbersCompareAlike(w.density, t.density, POSITIVE_ZERO);
    NothingIsBelowItself(s.density);
    SameAsItself(t);
  }

  lemma NothingIsBelowItself(a: Float)
    ensures !Less(a, a)
  {}

  lemma SameAsItself(t: ScalarSample)
    ensures SameNumber(t.density, t.density) && SameNumber(t.water, t.water)
  {}

  lemma WaterIsDetermined(ar: Arithmetic, c: EditCommand, p: GridPoint, s: ScalarSample, t: ScalarSample)
    requires ValidCommand(c) && WaterOperation(c.operation) && WaterEffect(ar, c, p, s, t)
    ensures var w := Written(ar, c, p, s); w.Some? && SameSample(w.value, t)
  {
    hide ExpectedBounds, Carved, Constructed;
  }

  /** A finite sample that the operation should leave is, up to the sign of zero, the one it leaves. */
  lemma EffectIsTheEditedSample(ar: Arithmetic, c: EditCommand, p: GridPoint, s: ScalarSample, t: ScalarSample)
    requires ValidCommand(c) && Contains(c, p) && FiniteSample(t) && Effect(ar, c, p, s, t)
    ensures ApplyToSample(ar, c, p, s).ok && SameSample(ApplyToSample(ar, c, p, s).sample, t)
  {
    hide Contains, ExpectedBounds, Carved, Constructed, WaterBrush, CarveEffect, ConstructEffect, WaterEffect, SphereBrush;
    if c.operation == SDF_CARVE {
      CarveIsDetermined(ar, c, p, s, t);
    } else if c.operation == SDF_CONSTRUCT {
      ConstructIsDetermined(ar, c, p, s, t);
    } else if WaterOperation(c.operation) {
      WaterIsDetermined(ar, c, p, s, t);
    }
  }
}
