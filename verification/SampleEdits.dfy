/** The effect of one edit command on one sample, and the sample lattice of a page. */
module SampleEdits {
  import opened Numbers
  import opened Floats
  import opened ChunkKeys
  import opened EditCommands

  const SAMPLES_PER_AXIS := 19
  const SAMPLE_COUNT := 6859

  datatype ScalarSample = ScalarSample(density: Float, material: U16, authored: bool, water: Float)

  /** The rounding operations of the host. Everything proved here holds for every choice of them. */
  datatype Arithmetic = Arithmetic(
    add: (Float, Float) -> Float,
    subtract: (Float, Float) -> Float,
    multiply: (Float, Float) -> Float,
    divide: (Float, Float) -> Float,
    sphereDepth: (GridPoint, Sphere, Float) -> Option<Float>,
    boxDepth: (GridPoint, AxisBox) -> Option<Float>,
    gridUnits: U32 -> Float)

  /** A bottom boundary keeps every sample at or below its top from being edited. */
  datatype Protection = Open | Sealed(chunkY: I32, thickness: U16)

  predicate Protects(protection: Protection, p: GridPoint) {
    protection.Sealed? && p.y <= protection.chunkY * CELLS_PER_AXIS + protection.thickness
  }

  const HALF: Float := 0x3F00_0000
  const ONE: Float := 0x3F80_0000

  function Clamp(v: Float, low: Float, high: Float): Float {
    if Less(v, low) then low else if Less(high, v) then high else v
  }

  /** The share of a in the blend of a and b. */
  function Share(ar: Arithmetic, difference: Float, radius: Float): Float {
    Clamp(ar.add(HALF, ar.divide(ar.multiply(HALF, difference), radius)), POSITIVE_ZERO, ONE)
  }

  function Blend(ar: Arithmetic, a: Float, b: Float, radius: Float): Float {
    var difference := ar.subtract(a, b);
    var h := Share(ar, difference, radius);
    ar.add(ar.add(b, ar.multiply(difference, h)), ar.multiply(ar.multiply(radius, h), ar.subtract(ONE, h)))
  }

  function SmoothMaximum(ar: Arithmetic, a: Float, b: Float, radius: Float): Float {
    if !(IsFinite(radius) && Less(POSITIVE_ZERO, radius)) then Maximum(a, b) else Blend(ar, a, b, radius)
  }

  function SmoothMinimum(ar: Arithmetic, a: Float, b: Float, radius: Float): Float {
    Negate(SmoothMaximum(ar, Negate(a), Negate(b), radius))
  }

  function OnlyFinite(v: Option<Float>): Option<Float> {
    if v.Some? && IsFinite(v.value) then v else None
  }

  function SphereBrush(ar: Arithmetic, p: GridPoint, s: Sphere, strength: Float): Option<Float> {
    if !(IsFinite(strength) && Less(POSITIVE_ZERO, strength)) then None
    else OnlyFinite(ar.sphereDepth(p, s, strength))
  }

  function WaterBrush(ar: Arithmetic, c: EditCommand, p: GridPoint): Option<Float> {
    if c.shape == SPHERE then
      var interior := SphereBrush(ar, p, c.sphere, ONE);
      if interior.None? then None else OnlyFinite(Some(Negate(interior.value)))
    else OnlyFinite(ar.boxDepth(p, c.box))
  }

  /** The sample written, or None when the operation gives up before writing. */
  function Written(ar: Arithmetic, c: EditCommand, p: GridPoint, s: ScalarSample): Option<ScalarSample> {
    if c.operation == ADD_DENSITY then
      var sum := ar.add(s.density, c.density);
      if IsFinite(sum) then Some(s.(density := sum)) else None
    else if c.operation == SET_DENSITY then
      Some(s.(density := c.density))
    else if SdfOperation(c.operation) then
      var brush := SphereBrush(ar, p, c.sphere, c.density);
      if brush.None? then None
      else if c.operation == SDF_CARVE then Some(Carved(ar, c, s, brush.value))
      else Some(Constructed(ar, c, s, brush.value))
    else if WaterOperation(c.operation) then
      var depth := WaterBrush(ar, c, p);
      if depth.None? then None
      else if c.operation == PLACE_STATIC_WATER then
        var wet := s.(water := Minimum(s.water, depth.value));
        Some(if AtMost(POSITIVE_ZERO, s.density) then Painted(wet, STATIC_WATER_MATERIAL) else wet)
      else Some(s.(water := Maximum(s.water, Negate(depth.value))))
    else if c.operation == PLACE_MATERIAL_VOLUME then
      Some(if AtMost(POSITIVE_ZERO, s.density) then Painted(s, c.material) else s)
    else Some(Painted(s, c.material))
  }

  function Painted(s: ScalarSample, material: U16): ScalarSample {
    s.(material := material, authored := true)
  }

  function Carved(ar: Arithmetic, c: EditCommand, s: ScalarSample, brush: Float): ScalarSample {
    var result := SmoothMaximum(ar, s.density, brush, ar.gridUnits(c.smoothRadius));
    if !Less(s.density, result) then s
    else
      var dug := s.(density := result);
      if AtMost(POSITIVE_ZERO, result) && Less(s.water, POSITIVE_ZERO)
      then Painted(dug, STATIC_WATER_MATERIAL) else dug
  }

  function Constructed(ar: Arithmetic, c: EditCommand, s: ScalarSample, brush: Float): ScalarSample {
    var result := SmoothMinimum(ar, s.density, Negate(brush), ar.gridUnits(c.smoothRadius));
    if !Less(result, s.density) then s
    else
      var built := s.(density := result);
      if c.material != 0 && AtMost(result, POSITIVE_ZERO) then Painted(built, c.material) else built
  }

  predicate Differs(a: ScalarSample, b: ScalarSample) {
    !Equal(a.density, b.density) || a.material != b.material || a.authored != b.authored || !Equal(a.water, b.water)
  }

  predicate FiniteSample(s: ScalarSample) {
    IsFinite(s.density) && IsFinite(s.water)
  }

  ghost predicate FiniteDensities(samples: seq<ScalarSample>) {
    forall i :: 0 <= i < |samples| ==> IsFinite(samples[i].density)
  }

  /** Same numbers and same material: what a reader of the sample can tell apart. */
  predicate SameSample(a: ScalarSample, b: ScalarSample) {
    SameNumber(a.density, b.density) && a.material == b.material && a.authored == b.authored
    && SameNumber(a.water, b.water)
  }

  /** The sample afterwards, whether it was noted as changed, and whether the operation succeeded. */
  datatype Outcome = Outcome(sample: ScalarSample, changed: bool, ok: bool)

  function ApplyToSample(ar: Arithmetic, c: EditCommand, p: GridPoint, s: ScalarSample): Outcome {
    if !Contains(c, p) then Outcome(s, false, true)
    else
      var w := Written(ar, c, p, s);
      if w.None? then Outcome(s, false, false)
      else Outcome(w.value, Differs(w.value, s), FiniteSample(w.value))
  }

  // ---- The sample lattice of a page ----

  /** The box a page's samples span: one cell beyond the chunk on every side. */
  function PaddedBounds(key: ChunkKey): Box3 {
    Widened(ChunkBounds(key), CellSize(key.lod))
  }

  predicate BoundsMeet(a: Box3, b: Box3) {
    && a.maximum.x >= b.minimum.x && a.minimum.x <= b.maximum.x
    && a.maximum.y >= b.minimum.y && a.minimum.y <= b.maximum.y
    && a.maximum.z >= b.minimum.z && a.minimum.z <= b.maximum.z
  }

  predicate MayIntersectPage(key: ChunkKey, bounds: Box3) {
    BoundsMeet(bounds, PaddedBounds(key))
  }

  function SamplePoint(key: ChunkKey, x: int, y: int, z: int): GridPoint {
    var low := ChunkBounds(key).minimum;
    GridPoint(low.x + Cells(x, key.lod), low.y + Cells(y, key.lod), low.z + Cells(z, key.lod))
  }

  function SampleIndex(x: int, y: int, z: int): int {
    ((z + 1) * SAMPLES_PER_AXIS + y + 1) * SAMPLES_PER_AXIS + x + 1
  }

  predicate LatticeCoordinate(v: int) { -1 <= v <= 17 }

  /** The grid point of the sample stored at `index`: x runs fastest, then y, then z. */
  function PointAt(key: ChunkKey, index: nat): GridPoint {
    SamplePoint(key, index % SAMPLES_PER_AXIS - 1, index / SAMPLES_PER_AXIS % SAMPLES_PER_AXIS - 1,
                index / (SAMPLES_PER_AXIS * SAMPLES_PER_AXIS) - 1)
  }

  lemma IndexOfCoordinates(key: ChunkKey, x: int, y: int, z: int)
    requires LatticeCoordinate(x) && LatticeCoordinate(y) && LatticeCoordinate(z)
    ensures 0 <= SampleIndex(x, y, z) < SAMPLE_COUNT
    ensures SampleIndex(x, y, z) == x + 1 + 19 * (y + 1) + 361 * (z + 1)
    ensures PointAt(key, SampleIndex(x, y, z)) == SamplePoint(key, x, y, z)
  {
    var i := SampleIndex(x, y, z);
    var row := (z + 1) * 19 + y + 1;
    assert i == row * 19 + (x + 1);
    assert i / 19 == row && i % 19 == x + 1;
    assert row / 19 == z + 1 && row % 19 == y + 1;
    assert i / 361 == z + 1;
  }

  lemma CoordinatesOfIndex(i: nat) returns (x: int, y: int, z: int)
    requires i < SAMPLE_COUNT
    ensures LatticeCoordinate(x) && LatticeCoordinate(y) && LatticeCoordinate(z) && i == SampleIndex(x, y, z)
  {
    x, y, z := i % 19 - 1, i / 19 % 19 - 1, i / 361 - 1;
    assert i / 361 == i / 19 / 19;
  }

  lemma PageSpansItsPoints(key: ChunkKey, i: nat)
    requires i < SAMPLE_COUNT
    ensures PointInBounds(PointAt(key, i), PaddedBounds(key))
  {
    var x, y, z := CoordinatesOfIndex(i);
    IndexOfCoordinates(key, x, y, z);
    AxisSpan(x, key.lod);
    AxisSpan(y, key.lod);
    AxisSpan(z, key.lod);
  }

  lemma AxisSpan(v: int, lod: U8)
    requires LatticeCoordinate(v)
    ensures 0 <= Cells(v, lod) + CellSize(lod) && Cells(v, lod) <= Extent(lod) + CellSize(lod)
  {
    if lod <= MAXIMUM_LOD {
      ScaledAdds(v, 1, lod);
      ScaledAdds(16, 1, lod);
      ScaledKeepsOrder(v + 1, 0, lod);
      ScaledKeepsOrder(17, v, lod);
      ScaledAdds(0, 0, lod);
    }
  }

  /** At the finest level sample coordinates are world coordinates shifted by the chunk's corner. */
  lemma FinestLattice(key: ChunkKey, x: int, y: int, z: int)
    requires key.lod == 0
    ensures SamplePoint(key, x, y, z) == GridPoint(16 * key.x + x, 16 * key.y + y, 16 * key.z + z)
  {}

  lemma FinestPage(key: ChunkKey)
    requires key.lod == 0
    ensures PaddedBounds(key) == Box3(GridPoint(16 * key.x - 1, 16 * key.y - 1, 16 * key.z - 1),
                                      GridPoint(16 * key.x + 17, 16 * key.y + 17, 16 * key.z + 17))
  {}

  // ---- Coverage against the page-skip test ----

  /** A page holding a covered sample is skipped exactly when the sample is on the page's rim, one past the bounds. */
  predicate OnSkippedRim(p: GridPoint, page: Box3, bounds: Box3) {
    || (p.x == page.maximum.x && p.x == bounds.minimum.x - 1) || (p.x == page.minimum.x && p.x == bounds.maximum.x + 1)
    || (p.y == page.maximum.y && p.y == bounds.minimum.y - 1) || (p.y == page.minimum.y && p.y == bounds.maximum.y + 1)
    || (p.z == page.maximum.z && p.z == bounds.minimum.z - 1) || (p.z == page.minimum.z && p.z == bounds.maximum.z + 1)
  }

  lemma SkippedCoverageIsAtTheRim(c: EditCommand, key: ChunkKey, i: nat)
    requires ValidCommand(c) && i < SAMPLE_COUNT && Contains(c, PointAt(key, i))
    ensures !MayIntersectPage(key, c.bounds) <==> OnSkippedRim(PointAt(key, i), PaddedBounds(key), c.bounds)
    ensures !MayIntersectPage(key, c.bounds) ==> Tangent(c, PointAt(key, i))
  {
    PageSpansItsPoints(key, i);
    CoverageStaysNearBounds(c, PointAt(key, i));
  }
}
