/** Which refused commands leave their mark on a page, told from the page and the command alone. */
module PageRollback {
  import opened Numbers
  import opened Floats
  import opened Rounding
  import opened Blending
  import opened ChunkKeys
  import opened EditCommands
  import opened SampleEdits
  import opened PageEdits
  import opened PageProperties

  // ---- One sample ----

  /** The command fails on the sample and the sample no longer reads as it did. */
  predicate LeavesAMark(ar: Arithmetic, c: EditCommand, p: GridPoint, s: ScalarSample) {
    var o := ApplyToSample(ar, c, p, s);
    !o.ok && !SameSample(o.sample, s)
  }

  function Brush(ar: Arithmetic, c: EditCommand, p: GridPoint): Option<Float> {
    SphereBrush(ar, p, c.sphere, c.density)
  }

  /** The smoothed density is infinite. */
  predicate BrushOverflows(ar: Arithmetic, c: EditCommand, p: GridPoint, s: ScalarSample) {
    var r := ar.gridUnits(c.smoothRadius);
    && SdfOperation(c.operation) && Brush(ar, c, p).Some?
    && if c.operation == SDF_CARVE then SmoothMaximum(ar, s.density, Brush(ar, c, p).value, r) == INFINITY
       else SmoothMinimum(ar, s.density, Negate(Brush(ar, c, p).value), r) == Negate(INFINITY)
  }

  /** The operation has no result to write: a sum, a brush or a water depth outside binary32. */
  predicate GivesUp(ar: Arithmetic, c: EditCommand, p: GridPoint, s: ScalarSample) {
    if c.operation == ADD_DENSITY then !IsFinite(ar.add(s.density, c.density))
    else if SdfOperation(c.operation) then Brush(ar, c, p).None?
    else WaterOperation(c.operation) && WaterBrush(ar, c, p).None?
  }

  /** A sample of finite density and water: the command fails exactly where it gives up, leaving no mark, or where its brush
      overflows, leaving one. */
  lemma FailureOnAFiniteSample(ar: Arithmetic, c: EditCommand, p: GridPoint, s: ScalarSample)
    requires ValidCommand(c) && Contains(c, p) && FiniteSample(s)
    ensures LeavesAMark(ar, c, p, s) <==> BrushOverflows(ar, c, p, s)
    ensures ApplyToSample(ar, c, p, s).ok <==> !GivesUp(ar, c, p, s) && !BrushOverflows(ar, c, p, s)
  {
    hide Contains, ExpectedBounds, SmoothMaximum, SmoothMinimum;
  }

  predicate Repainted(s: ScalarSample, material: U16) {
    s.material != material || !s.authored
  }

  /** What the operation writes reads differently from what stands there, its water aside. */
  predicate Rewrites(ar: Arithmetic, c: EditCommand, p: GridPoint, s: ScalarSample) {
    var r := ar.gridUnits(c.smoothRadius);
    if c.operation == ADD_DENSITY then !SameNumber(ar.add(s.density, c.density), s.density)
    else if c.operation == SET_DENSITY then !SameNumber(c.density, s.density)
    else if c.operation == SDF_CARVE then
      Brush(ar, c, p).Some? && Less(s.density, SmoothMaximum(ar, s.density, Brush(ar, c, p).value, r))
    else if c.operation == SDF_CONSTRUCT then
      Brush(ar, c, p).Some? && Less(SmoothMinimum(ar, s.density, Negate(Brush(ar, c, p).value), r), s.density)
    else if c.operation == PAINT_MATERIAL then Repainted(s, c.material)
    else if c.operation == REMOVE_STATIC_WATER then false
    else AtMost(POSITIVE_ZERO, s.density) && Repainted(s, c.material)
  }

  /** Water no operation but its own opposite can make finite again. */
  predicate StaysFouled(c: EditCommand, s: ScalarSample) {
    if c.operation == PLACE_STATIC_WATER then s.water != INFINITY
    else if c.operation == REMOVE_STATIC_WATER then s.water != Negate(INFINITY)
    else true
  }

  /** A sample whose water is not finite: only the water operation that mends it succeeds, and another leaves a
      mark exactly where it had something else to write. */
  lemma FailureOnFouledWater(ar: Arithmetic, c: EditCommand, p: GridPoint, s: ScalarSample)
    requires ValidCommand(c) && Contains(c, p) && IsFinite(s.density) && !IsFinite(s.water)
    ensures ApplyToSample(ar, c, p, s).ok <==> !GivesUp(ar, c, p, s) && !StaysFouled(c, s)
    ensures LeavesAMark(ar, c, p, s) <==> !GivesUp(ar, c, p, s) && StaysFouled(c, s) && Rewrites(ar, c, p, s)
  {
    if SdfOperation(c.operation) {
      SdfOnFouledWater(ar, c, p, s);
    } else if WaterOperation(c.operation) {
      WaterOnFouledWater(ar, c, p, s);
    } else {
      hide Contains, ExpectedBounds, WaterBrush;
    }
  }

  lemma WaterOnFouledWater(ar: Arithmetic, c: EditCommand, p: GridPoint, s: ScalarSample)
    requires WaterOperation(c.operation) && c.material == STATIC_WATER_MATERIAL
    requires Contains(c, p) && IsFinite(s.density) && !IsFinite(s.water)
    ensures ApplyToSample(ar, c, p, s).ok <==> !GivesUp(ar, c, p, s) && !StaysFouled(c, s)
    ensures LeavesAMark(ar, c, p, s) <==> !GivesUp(ar, c, p, s) && StaysFouled(c, s) && Rewrites(ar, c, p, s)
  {
    assert WaterBrush(ar, c, p).Some? ==> IsFinite(WaterBrush(ar, c, p).value);
    hide Contains, WaterBrush;
  }

  lemma SdfOnFouledWater(ar: Arithmetic, c: EditCommand, p: GridPoint, s: ScalarSample)
    requires SdfOperation(c.operation) && Contains(c, p) && !IsFinite(s.water)
    ensures !ApplyToSample(ar, c, p, s).ok
    ensures LeavesAMark(ar, c, p, s) <==> !GivesUp(ar, c, p, s) && Rewrites(ar, c, p, s)
  {
    hide Contains, SmoothMaximum, SmoothMinimum, SphereBrush;
  }

  /** The command cannot succeed on a sample of finite density. */
  predicate Fails(ar: Arithmetic, c: EditCommand, p: GridPoint, s: ScalarSample) {
    || GivesUp(ar, c, p, s)
    || if IsFinite(s.water) then BrushOverflows(ar, c, p, s) else StaysFouled(c, s)
  }

  /** It fails after writing something that reads differently. */
  predicate Marks(ar: Arithmetic, c: EditCommand, p: GridPoint, s: ScalarSample) {
    && !GivesUp(ar, c, p, s)
    && if IsFinite(s.water) then BrushOverflows(ar, c, p, s) else StaysFouled(c, s) && Rewrites(ar, c, p, s)
  }

  lemma FailureExactly(ar: Arithmetic, c: EditCommand, p: GridPoint, s: ScalarSample)
    requires ValidCommand(c) && Contains(c, p) && IsFinite(s.density)
    ensures ApplyToSample(ar, c, p, s).ok <==> !Fails(ar, c, p, s)
    ensures LeavesAMark(ar, c, p, s) <==> Marks(ar, c, p, s)
  {
    hide ValidCommand, Contains, StaysFouled, Rewrites, LeavesAMark, ApplyToSample, SmoothMaximum, SmoothMinimum;
    if IsFinite(s.water) {
      FailureOnAFiniteSample(ar, c, p, s);
    } else {
      FailureOnFouledWater(ar, c, p, s);
    }
  }

  // ---- The whole page ----

  predicate Reached(st: PageState, c: EditCommand, i: nat) {
    i < |st.samples| && !Protects(st.protection, PointAt(st.key, i)) && Contains(c, PointAt(st.key, i))
  }

  predicate FailsAt(ar: Arithmetic, st: PageState, c: EditCommand, i: nat) {
    Reached(st, c, i) && Fails(ar, c, PointAt(st.key, i), st.samples[i])
  }

  predicate MarksAt(ar: Arithmetic, st: PageState, c: EditCommand, i: nat) {
    Reached(st, c, i) && Marks(ar, c, PointAt(st.key, i), st.samples[i])
  }

  /** The first reached sample on which the command cannot succeed is one it leaves a mark on. */
  ghost predicate MarkComesFirst(ar: Arithmetic, st: PageState, c: EditCommand) {
    exists i: nat :: MarksAt(ar, st, c, i) && forall j: nat :: j < i ==> !FailsAt(ar, st, c, j)
  }

  lemma FailureAt(ar: Arithmetic, st: PageState, c: EditCommand, i: nat)
    requires ValidCommand(c) && FiniteDensities(st.samples) && i < |st.samples|
    ensures
      var o := PageEdit(ar, c, st.key, st.protection).At(i, st.samples[i]);
      && (o.ok <==> !FailsAt(ar, st, c, i))
      && (!o.ok && !SameSample(o.sample, st.samples[i]) <==> MarksAt(ar, st, c, i))
  {
    hide ValidCommand, Contains, Fails, Marks, PointAt, Protects;
    if Reached(st, c, i) {
      FailureExactly(ar, c, PointAt(st.key, i), st.samples[i]);
    }
  }

  lemma WhereThePassStops(ar: Arithmetic, st: PageState, c: EditCommand) returns (k: nat)
    requires Gate(st.revision, st.nextSequence, c) == Ok && MayIntersectPage(st.key, c.bounds)
    ensures
      var edit, r := PageEdit(ar, c, st.key, st.protection), ApplyCommand(ar, st, c);
      && k <= |st.samples| && (r.status == NonFiniteResult <==> k < |st.samples|)
      && (forall i: nat :: i < k ==> edit.At(i, st.samples[i]).ok)
      && (k < |st.samples| ==>
            var o := edit.At(k, st.samples[k]);
            && !o.ok && |r.state.samples| == |st.samples| && r.state.samples[k] == o.sample
            && (ReadsAs(r.state, st) <==> SameSample(o.sample, st.samples[k])))
  {
    hide ValidCommand;
    k := FailingSample(ar, st, c);
    if k < |st.samples| {
      RefusedCommandRestores(ar, st, c);
      assert ApplyCommand(ar, st, c).state.samples[k] == PageEdit(ar, c, st.key, st.protection).At(k, st.samples[k]).sample;
    }
  }

  /** Before it is applied, on any page that can be edited: a command is refused exactly when it fails on some reached
      sample, and the page then no longer reads as before exactly when the first such sample is one it leaves a mark on. */
  lemma RefusalMarksExactly(ar: Arithmetic, st: PageState, c: EditCommand)
    requires FiniteDensities(st.samples)
    requires Gate(st.revision, st.nextSequence, c) == Ok && MayIntersectPage(st.key, c.bounds)
    ensures
      var r := ApplyCommand(ar, st, c);
      && (r.status == NonFiniteResult <==> exists i: nat :: FailsAt(ar, st, c, i))
      && (r.status == NonFiniteResult && !ReadsAs(r.state, st) <==> MarkComesFirst(ar, st, c))
  {
    hide ValidCommand, FiniteDensities, ApplyCommand, PageEdit.At, ReadsAs, SameSample, Contains, PointAt, Protects, Fails, Marks;
    var k := WhereThePassStops(ar, st, c);
    forall i: nat | i < |st.samples|
      ensures PageEdit(ar, c, st.key, st.protection).At(i, st.samples[i]).ok <==> !FailsAt(ar, st, c, i)
    {
      FailureAt(ar, st, c, i);
    }
    forall i: nat ensures MarksAt(ar, st, c, i) ==> FailsAt(ar, st, c, i) {
      MarksAreFailures(ar, st, c, i);
    }
    if k < |st.samples| {
      FailureAt(ar, st, c, k);
      assert FailsAt(ar, st, c, k);
    }
  }

  lemma MarksAreFailures(ar: Arithmetic, st: PageState, c: EditCommand, i: nat)
    ensures MarksAt(ar, st, c, i) ==> FailsAt(ar, st, c, i)
  {
    hide BrushOverflows, GivesUp, StaysFouled, Rewrites, Contains, PointAt, Protects;
  }

  // ---- In binary32 ----

  /** The two numbers the smoothed brush is a maximum of: a construct is a carve upside down. */
  function Facing(c: EditCommand, s: ScalarSample): Float {
    if c.operation == SDF_CARVE then s.density else Negate(s.density)
  }

  /** In binary32 the brush overflows exactly when it is smoothed and its depth blends with the density past the largest
      number, which two comparisons tell. */
  lemma BrushOverflowsExactly(ar: Arithmetic, c: EditCommand, p: GridPoint, s: ScalarSample)
    requires Binary32(ar) && IsFinite(s.density) && SdfOperation(c.operation)
    ensures BrushOverflows(ar, c, p, s)
       <==> Brush(ar, c, p).Some? && c.smoothRadius > 0 && BlendOverflows(Facing(c, s), Brush(ar, c, p).value)
  {
    if Brush(ar, c, p).Some? {
      var brush := Brush(ar, c, p).value;
      RadiusOf(ar, c.smoothRadius);
      hide Binary32, Brush, Blend, BlendOverflows, DifferenceOverflows, Size;
      assert IsFinite(brush) && Negate(Negate(brush)) == brush by { BrushIsFinite(ar, c, p); }
      if c.smoothRadius > 0 {
        BlendOverflowsExactly(ar, Facing(c, s), brush, ar.gridUnits(c.smoothRadius));
      }
    }
  }

  lemma BrushIsFinite(ar: Arithmetic, c: EditCommand, p: GridPoint)
    requires Brush(ar, c, p).Some?
    ensures IsFinite(Brush(ar, c, p).value)
  {}

  lemma RadiusOf(ar: Arithmetic, u: U32)
    requires Binary32(ar)
    ensures
      var r := ar.gridUnits(u);
      if u == 0 then r == POSITIVE_ZERO else SmoothingRadius(r) && IsFinite(r) && Less(POSITIVE_ZERO, r)
  {
    if u > 0 {
      PlainSizes();
      SizesFollowRanks(POSITIVE_ZERO, ar.gridUnits(u));
    }
    hide Size;
  }

  /** A sample on which no brush can overflow, whatever its depth. */
  predicate OutOfDanger(c: EditCommand, s: ScalarSample) {
    FiniteSample(s) && (!SdfOperation(c.operation) || c.smoothRadius == 0 || Magnitude(s.density) < SMALL)
  }

  lemma NoMark(ar: Arithmetic, c: EditCommand, p: GridPoint, s: ScalarSample)
    requires Binary32(ar) && OutOfDanger(c, s)
    ensures !Marks(ar, c, p, s)
  {
    hide Binary32, BlendOverflows;
    if SdfOperation(c.operation) {
      BrushOverflowsExactly(ar, c, p, s);
      if Brush(ar, c, p).Some? && c.smoothRadius > 0 {
        SmallNeverOverflows(Facing(c, s), Brush(ar, c, p).value);
      }
    }
  }

  /** Without looking at the brush: commands without smoothing, and smoothed brushes on densities below 2^103, leave no mark
      on samples that are finite. */
  lemma OrdinaryRefusalsRollBack(ar: Arithmetic, st: PageState, c: EditCommand)
    requires Binary32(ar) && FiniteDensities(st.samples) && ApplyCommand(ar, st, c).status == NonFiniteResult
    requires forall i: nat :: Reached(st, c, i) ==> OutOfDanger(c, st.samples[i])
    ensures ReadsAs(ApplyCommand(ar, st, c).state, st)
  {
    hide Binary32, ValidCommand, Contains, PointAt, Protects, ReadsAs, Marks, Fails, OutOfDanger;
    assert Gate(st.revision, st.nextSequence, c) == Ok && MayIntersectPage(st.key, c.bounds);
    hide ApplyCommand;
    forall i: nat ensures !MarksAt(ar, st, c, i) {
      if Reached(st, c, i) {
        NoMark(ar, c, PointAt(st.key, i), st.samples[i]);
      }
    }
    RefusalMarksExactly(ar, st, c);
  }

  // ---- A refused carve that leaves its mark ----

  /** A carve of radius 1 two units beside the page's last sample, with strength 1.75 * 2^127 and the least smoothing. */
  const OVERFLOWING_CARVE: EditCommand :=
    EditCommand(1, 0, 1, SDF_CARVE, SPHERE, 0, HUGE, 1, 0,
                Box3(GridPoint(17, 15, 15), GridPoint(21, 19, 19)), Sphere(19 * 65536, 17 * 65536, 17 * 65536, 65536), NO_BOX)

  const LAST_SAMPLE := 6858
  const CORNER: GridPoint := GridPoint(17, 17, 17)

  /** 2^-16, the least smoothing in grid units. */
  const LEAST_SMOOTHING: Float := 0x3780_0000

  lemma OverflowingCarveIsValid()
    ensures ValidCommand(OVERFLOWING_CARVE)
  {
    assert FloorQ16(18 * 65536 - 1) == 17 && CeilQ16(20 * 65536 + 1) == 21;
    assert FloorQ16(16 * 65536 - 1) == 15 && CeilQ16(18 * 65536 + 1) == 19;
  }

  lemma OnlyTheCornerIsCovered(p: GridPoint)
    requires p.x <= 17
    ensures Contains(OVERFLOWING_CARVE, p) <==> p == CORNER
  {
    if WithinBall(p, OVERFLOWING_CARVE.sphere, 131073) {
      var y, z := p.y - 17, p.z - 17;
      assert p.x == 17 && -2 <= y <= 2 && -2 <= z <= 2;
    }
  }

  lemma OnlyTheLastSampleIsReached(st: PageState, i: nat)
    requires st.key == ChunkKey(0, 0, 0, 0) && st.protection == Open && |st.samples| == SAMPLE_COUNT
    ensures Reached(st, OVERFLOWING_CARVE, i) <==> i == LAST_SAMPLE
    ensures PointAt(st.key, LAST_SAMPLE) == CORNER
  {
    IndexOfCoordinates(st.key, 17, 17, 17);
    FinestLattice(st.key, 17, 17, 17);
    if i < SAMPLE_COUNT {
      var x, y, z := CoordinatesOfIndex(i);
      IndexOfCoordinates(st.key, x, y, z);
      FinestLattice(st.key, x, y, z);
      OnlyTheCornerIsCovered(PointAt(st.key, i));
    }
  }

  /** At the corner the brush is one unit outside the surface, so its depth is minus the strength; the blend with an equally
      large density of the other sign is infinite. */
  predicate OverflowsAtTheCorner(ar: Arithmetic) {
    && ar.sphereDepth(CORNER, OVERFLOWING_CARVE.sphere, HUGE) == Some(Negate(HUGE))
    && ar.gridUnits(1) == LEAST_SMOOTHING
    && Blend(ar, HUGE, Negate(HUGE), LEAST_SMOOTHING) == INFINITY
  }

  /** That infinity is what binary32 gives. */
  lemma BinaryBlendOverflowsAtTheCorner(ar: Arithmetic)
    requires Binary32(ar) && ar.gridUnits(1) == LEAST_SMOOTHING
    ensures Blend(ar, HUGE, Negate(HUGE), LEAST_SMOOTHING) == INFINITY
  {
    RadiusOf(ar, 1);
    HugeOverflows();
    hide Binary32, Blend, BlendOverflows, SmoothingRadius;
    BlendOverflowsExactly(ar, HUGE, Negate(HUGE), LEAST_SMOOTHING);
  }

  lemma CornerIsWritten(ar: Arithmetic, s: ScalarSample)
    requires OverflowsAtTheCorner(ar) && s.density == HUGE
    ensures
      var o := ApplyToSample(ar, OVERFLOWING_CARVE, CORNER, s);
      !o.ok && o.sample.density == INFINITY
  {
    OnlyTheCornerIsCovered(CORNER);
    hide Contains, Blend;
  }

  /** Whatever the other samples hold and whatever the host computes elsewhere: the carve is refused, and the density of the
      page's last sample has become infinite. */
  lemma RefusedCarveLeavesItsMark(ar: Arithmetic, st: PageState)
    requires OverflowsAtTheCorner(ar)
    requires st.key == ChunkKey(0, 0, 0, 0) && st.protection == Open && st.revision == 0
    requires |st.samples| == SAMPLE_COUNT && st.samples[LAST_SAMPLE].density == HUGE
    ensures
      var r := ApplyCommand(ar, st, OVERFLOWING_CARVE);
      && r.status == NonFiniteResult && !ReadsAs(r.state, st)
      && r.state.samples[LAST_SAMPLE].density == INFINITY
  {
    hide OverflowsAtTheCorner, Contains, PointAt, ValidCommand, ApplyToSample, ApplyCommand, ReadsAs, Protects;
    assert Gate(st.revision, st.nextSequence, OVERFLOWING_CARVE) == Ok by { OverflowingCarveIsValid(); }
    assert MayIntersectPage(st.key, OVERFLOWING_CARVE.bounds) by { FinestPage(st.key); }
    var k := WhereThePassStops(ar, st, OVERFLOWING_CARVE);
    forall i: nat | i < SAMPLE_COUNT
      ensures
        var o := PageEdit(ar, OVERFLOWING_CARVE, st.key, Open).At(i, st.samples[i]);
        if i == LAST_SAMPLE then !o.ok && o.sample.density == INFINITY else o.ok
    {
      CarveAtSample(ar, st, i);
    }
    assert k == LAST_SAMPLE;
  }

  /** The carve fails on the last sample, over which it writes infinity, and on no other. */
  lemma CarveAtSample(ar: Arithmetic, st: PageState, i: nat)
    requires OverflowsAtTheCorner(ar) && i < SAMPLE_COUNT
    requires st.key == ChunkKey(0, 0, 0, 0) && st.protection == Open
    requires |st.samples| == SAMPLE_COUNT && st.samples[LAST_SAMPLE].density == HUGE
    ensures
      var o := PageEdit(ar, OVERFLOWING_CARVE, st.key, Open).At(i, st.samples[i]);
      if i == LAST_SAMPLE then !o.ok && o.sample.density == INFINITY else o.ok
  {
    OnlyTheLastSampleIsReached(st, i);
    hide OverflowsAtTheCorner, Contains, PointAt, Written;
    if i == LAST_SAMPLE {
      CornerIsWritten(ar, st.samples[i]);
    }
  }
}
