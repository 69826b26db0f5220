/** Edit commands: shapes in signed 16.16 units, conservative integer bounds, validity. */
module EditCommands {
  import opened Numbers
  import opened Floats
  import opened ChunkKeys

  const COORDINATE_SCALE := 65536
  const MAXIMUM_COMMAND_COUNT := 4096
  const STATIC_WATER_MATERIAL: U16 := 9

  const ADD_DENSITY: U16 := 1
  const SET_DENSITY: U16 := 2
  const PAINT_MATERIAL: U16 := 3
  const SDF_CARVE: U16 := 4
  const SDF_CONSTRUCT: U16 := 5
  const PLACE_MATERIAL_VOLUME: U16 := 6
  const PLACE_STATIC_WATER: U16 := 7
  const REMOVE_STATIC_WATER: U16 := 8

  const SPHERE: U16 := 1
  const AXIS_ALIGNED_BOX: U16 := 2

  datatype Sphere = Sphere(centerX: I64, centerY: I64, centerZ: I64, radius: U64)

  datatype AxisBox = AxisBox(minimumX: I64, minimumY: I64, minimumZ: I64,
                             maximumX: I64, maximumY: I64, maximumZ: I64)

  const NO_SPHERE := Sphere(0, 0, 0, 0)
  const NO_BOX := AxisBox(0, 0, 0, 0, 0, 0)

  /** Operation and shape are raw codes: decoding may produce codes outside the enumerations. */
  datatype EditCommand = EditCommand(
    id: U128, sequence: U32, worldRevision: U64, operation: U16, shape: U16, flags: U32,
    density: Float, smoothRadius: U32, material: U16, bounds: Box3, sphere: Sphere, box: AxisBox)

  predicate SdfOperation(operation: U16) {
    operation == SDF_CARVE || operation == SDF_CONSTRUCT
  }

  predicate DensityOperation(operation: U16) {
    operation == ADD_DENSITY || operation == SET_DENSITY || SdfOperation(operation)
  }

  predicate WaterOperation(operation: U16) {
    operation == PLACE_STATIC_WATER || operation == REMOVE_STATIC_WATER
  }

  function FloorQ16(v: int): int { FloorDivide(v, COORDINATE_SCALE) }

  function CeilQ16(v: int): int { CeilDivide(v, COORDINATE_SCALE) }

  function SubtractRadius(center: I64, radius: U64): Option<I64> {
    if radius > I64_MAX then None
    else if center < I64_MIN + radius then None
    else Some(center - radius)
  }

  function AddRadius(center: I64, radius: U64): Option<I64> {
    if radius > I64_MAX then None
    else if center > I64_MAX - radius then None
    else Some(center + radius)
  }

  function SphereBounds(s: Sphere, smooth: U32): Option<Box3> {
    if s.radius == 0 then None
    else if s.radius > U64_MAX - smooth then None
    else
      var r: U64 := s.radius + smooth;
      var x0, x1 := SubtractRadius(s.centerX, r), AddRadius(s.centerX, r);
      var y0, y1 := SubtractRadius(s.centerY, r), AddRadius(s.centerY, r);
      var z0, z1 := SubtractRadius(s.centerZ, r), AddRadius(s.centerZ, r);
      if x0.None? || x1.None? || y0.None? || y1.None? || z0.None? || z1.None? then None
      else Some(Box3(GridPoint(FloorQ16(x0.value), FloorQ16(y0.value), FloorQ16(z0.value)),
                     GridPoint(CeilQ16(x1.value), CeilQ16(y1.value), CeilQ16(z1.value))))
  }

  function BoxBounds(b: AxisBox): Option<Box3> {
    if b.minimumX > b.maximumX || b.minimumY > b.maximumY || b.minimumZ > b.maximumZ then None
    else Some(Box3(GridPoint(FloorQ16(b.minimumX), FloorQ16(b.minimumY), FloorQ16(b.minimumZ)),
                   GridPoint(CeilQ16(b.maximumX), CeilQ16(b.maximumY), CeilQ16(b.maximumZ))))
  }

  function ExpectedBounds(c: EditCommand): Option<Box3> {
    if c.shape == SPHERE then SphereBounds(c.sphere, c.smoothRadius) else BoxBounds(c.box)
  }

  predicate ValidValues(c: EditCommand) {
    && c.id != 0
    && ADD_DENSITY <= c.operation <= REMOVE_STATIC_WATER
    && (c.shape == SPHERE || c.shape == AXIS_ALIGNED_BOX)
    && c.flags == 0
    && IsFinite(c.density)
    && (DensityOperation(c.operation) && c.operation != SDF_CONSTRUCT ==> c.material == 0)
    && (c.operation == ADD_DENSITY ==> !Equal(c.density, POSITIVE_ZERO))
    && (SdfOperation(c.operation) ==> c.shape == SPHERE && Less(POSITIVE_ZERO, c.density))
    && (!SdfOperation(c.operation) ==> c.smoothRadius == 0)
    && (c.operation == PAINT_MATERIAL || c.operation == PLACE_MATERIAL_VOLUME || WaterOperation(c.operation)
        ==> Equal(c.density, POSITIVE_ZERO))
    && (c.operation == PLACE_MATERIAL_VOLUME ==> c.material != 0)
    && (WaterOperation(c.operation) ==> c.material == STATIC_WATER_MATERIAL)
  }

  predicate ValidCommand(c: EditCommand) {
    ValidValues(c) && ExpectedBounds(c) == Some(c.bounds)
  }

  // ---- Which commands are valid ----

  /** The coordinate and everything within the radius of it fit 64 bits. */
  predicate ReachFits(center: I64, r: nat) {
    I64_MIN <= center - r && center + r <= I64_MAX
  }

  /** A sphere has bounds exactly when it has a radius and its smoothed ball fits 64-bit coordinates. */
  lemma SphereBoundsExist(s: Sphere, smooth: U32)
    ensures SphereBounds(s, smooth).Some?
       <==> && s.radius > 0 && ReachFits(s.centerX, s.radius + smooth) && ReachFits(s.centerY, s.radius + smooth)
            && ReachFits(s.centerZ, s.radius + smooth)
  {
    hide FloorQ16, CeilQ16;
  }

  predicate IsZero(density: Float) { density == 0 || density == 0x8000_0000 }

  predicate IsPositive(density: Float) { 0 < density < 0x7F80_0000 }

  /** What each operation may carry: density, material, smoothing and shape. */
  predicate FitsItsOperation(c: EditCommand) {
    match c.operation
    case 1 => IsFinite(c.density) && !IsZero(c.density) && c.material == 0 && c.smoothRadius == 0  // add
    case 2 => IsFinite(c.density) && c.material == 0 && c.smoothRadius == 0                        // set
    case 3 => IsZero(c.density) && c.smoothRadius == 0                                             // paint
    case 4 => IsPositive(c.density) && c.material == 0 && c.shape == SPHERE                        // carve
    case 5 => IsPositive(c.density) && c.shape == SPHERE                                           // construct
    case 6 => IsZero(c.density) && c.material != 0 && c.smoothRadius == 0                          // volume
    case 7 => IsZero(c.density) && c.material == 9 && c.smoothRadius == 0                          // place water
    case 8 => IsZero(c.density) && c.material == 9 && c.smoothRadius == 0                          // remove water
    case _ => false
  }

  /** Validity, operation by operation. */
  lemma ValidCommandsExactly(c: EditCommand)
    ensures ValidCommand(c)
       <==> && c.id != 0 && c.flags == 0 && (c.shape == SPHERE || c.shape == AXIS_ALIGNED_BOX) && FitsItsOperation(c)
            && ExpectedBounds(c) == Some(c.bounds)
  {
    hide ExpectedBounds;
  }

  // ---- Which samples a command covers ----

  predicate PointInBounds(p: GridPoint, b: Box3) {
    && b.minimum.x <= p.x <= b.maximum.x
    && b.minimum.y <= p.y <= b.maximum.y
    && b.minimum.z <= p.z <= b.maximum.z
  }

  /** Within `radius` of the centre; the axis tests come first, as they keep the squares in range. */
  predicate WithinBall(p: GridPoint, s: Sphere, radius: nat) {
    var dx := p.x * COORDINATE_SCALE - s.centerX;
    var dy := p.y * COORDINATE_SCALE - s.centerY;
    var dz := p.z * COORDINATE_SCALE - s.centerZ;
    var r: int := radius;
    && -r <= dx <= r && -r <= dy <= r && -r <= dz <= r
    && dx * dx + dy * dy + dz * dz <= r * r
  }

  predicate PointInBox(p: GridPoint, b: AxisBox) {
    && b.minimumX <= p.x * COORDINATE_SCALE <= b.maximumX
    && b.minimumY <= p.y * COORDINATE_SCALE <= b.maximumY
    && b.minimumZ <= p.z * COORDINATE_SCALE <= b.maximumZ
  }

  predicate SdfSphere(c: EditCommand) {
    SdfOperation(c.operation) && c.shape == SPHERE
  }

  /** The signed-distance brushes reach one grid unit past the radius and its smoothing band. */
  function SdfReach(c: EditCommand): nat {
    c.sphere.radius + COORDINATE_SCALE + c.smoothRadius
  }

  predicate Contains(c: EditCommand, p: GridPoint) {
    if SdfSphere(c) then WithinBall(p, c.sphere, SdfReach(c))
    else
      PointInBounds(p, c.bounds)
      && (if c.shape == SPHERE then WithinBall(p, c.sphere, c.sphere.radius) else PointInBox(p, c.box))
  }

  function SquaredDistance(p: GridPoint, s: Sphere): int {
    var dx := p.x * COORDINATE_SCALE - s.centerX;
    var dy := p.y * COORDINATE_SCALE - s.centerY;
    var dz := p.z * COORDINATE_SCALE - s.centerZ;
    dx * dx + dy * dy + dz * dz
  }

  lemma LargerSquares(r: int, e: int)
    requires r >= 0
    ensures r < e ==> r * r < e * e
  {
    if r < e {
      MultiplesKeepOrder(r, e, e);
      if r > 0 { MultiplesKeepOrder(r, e, r); }
    }
  }

  lemma SquareIsBounded(d: int, r: int)
    requires r >= 0 && d * d <= r * r
    ensures -r <= d <= r
  {
    assert -d * -d == d * d;
    LargerSquares(r, d);
    LargerSquares(r, -d);
  }

  lemma BallIsRound(p: GridPoint, s: Sphere, radius: nat)
    ensures WithinBall(p, s, radius) <==> SquaredDistance(p, s) <= radius * radius
  {
    if SquaredDistance(p, s) <= radius * radius {
      var dx, dy, dz := p.x * COORDINATE_SCALE - s.centerX, p.y * COORDINATE_SCALE - s.centerY, p.z * COORDINATE_SCALE - s.centerZ;
      SquareIsPositive(dx);
      SquareIsPositive(dy);
      SquareIsPositive(dz);
      SquareIsBounded(dx, radius);
      SquareIsBounded(dy, radius);
      SquareIsBounded(dz, radius);
    }
  }

  lemma SquareIsPositive(d: int)
    ensures d * d >= 0
  {}

  lemma IntervalIsCovered(v: int, low: int, high: int)
    requires low <= v * COORDINATE_SCALE <= high
    ensures FloorQ16(low) <= v <= CeilQ16(high)
  {
    FloorDivideIsFloor(low, COORDINATE_SCALE);
    CeilDivideIsCeiling(high, COORDINATE_SCALE);
  }

  lemma ShapeIsInItsBounds(c: EditCommand, p: GridPoint)
    requires ValidCommand(c) && !SdfOperation(c.operation)
    requires if c.shape == SPHERE then WithinBall(p, c.sphere, c.sphere.radius) else PointInBox(p, c.box)
    ensures PointInBounds(p, c.bounds)
  {
    hide FloorQ16, CeilQ16;
    var s, b, r := c.sphere, c.box, c.sphere.radius;
    if c.shape == SPHERE {
      IntervalIsCovered(p.x, s.centerX - r, s.centerX + r);
      IntervalIsCovered(p.y, s.centerY - r, s.centerY + r);
      IntervalIsCovered(p.z, s.centerZ - r, s.centerZ + r);
    } else {
      IntervalIsCovered(p.x, b.minimumX, b.maximumX);
      IntervalIsCovered(p.y, b.minimumY, b.maximumY);
      IntervalIsCovered(p.z, b.minimumZ, b.maximumZ);
    }
  }

  /** Neither the bounds nor the axis tests lose a point: a valid command covers its box, or the ball of its radius, which
      for a signed-distance brush is one grid unit and the smoothing wider. */
  lemma CoverageIsTheShape(c: EditCommand, p: GridPoint)
    requires ValidCommand(c)
    ensures
      var r := c.sphere.radius + (if SdfOperation(c.operation) then COORDINATE_SCALE + c.smoothRadius else 0);
      Contains(c, p) <==>
        if c.shape == SPHERE then SquaredDistance(p, c.sphere) <= r * r
        else
          && c.box.minimumX <= p.x * COORDINATE_SCALE <= c.box.maximumX
          && c.box.minimumY <= p.y * COORDINATE_SCALE <= c.box.maximumY
          && c.box.minimumZ <= p.z * COORDINATE_SCALE <= c.box.maximumZ
  {
    hide WithinBall, SquaredDistance, PointInBounds, ExpectedBounds;
    BallIsRound(p, c.sphere, SdfReach(c));
    BallIsRound(p, c.sphere, c.sphere.radius);
    if !SdfOperation(c.operation)
      && (if c.shape == SPHERE then WithinBall(p, c.sphere, c.sphere.radius) else PointInBox(p, c.box)) {
      ShapeIsInItsBounds(c, p);
    }
  }

  /** The point sits exactly on a pole of the enlarged ball of a signed-distance brush. */
  predicate Tangent(c: EditCommand, p: GridPoint) {
    SdfSphere(c) && (
      || AxisTangent(p.x, c.sphere.centerX, SdfReach(c))
      || AxisTangent(p.y, c.sphere.centerY, SdfReach(c))
      || AxisTangent(p.z, c.sphere.centerZ, SdfReach(c)))
  }

  predicate AxisTangent(v: int, center: int, reach: nat) {
    v * COORDINATE_SCALE == center - reach || v * COORDINATE_SCALE == center + reach
  }

  /** The integer bounds widened by `margin` units on every side. */
  function Widened(b: Box3, margin: int): Box3 {
    Box3(GridPoint(b.minimum.x - margin, b.minimum.y - margin, b.minimum.z - margin),
         GridPoint(b.maximum.x + margin, b.maximum.y + margin, b.maximum.z + margin))
  }

  lemma AxisReach(v: int, center: I64, r: U64)
    requires center - r - COORDINATE_SCALE <= v * COORDINATE_SCALE <= center + r + COORDINATE_SCALE
    ensures FloorQ16(center - r) - 1 <= v <= CeilQ16(center + r) + 1
    ensures v == FloorQ16(center - r) - 1 ==> AxisTangent(v, center, r + COORDINATE_SCALE)
    ensures v == CeilQ16(center + r) + 1 ==> AxisTangent(v, center, r + COORDINATE_SCALE)
  {
    FloorDivideIsFloor(center - r, COORDINATE_SCALE);
    CeilDivideIsCeiling(center + r, COORDINATE_SCALE);
  }

  /** A covered sample is within one unit of the integer bounds, and inside them unless it is exactly tangent. */
  lemma CoverageStaysNearBounds(c: EditCommand, p: GridPoint)
    requires ValidCommand(c) && Contains(c, p)
    ensures PointInBounds(p, Widened(c.bounds, 1))
    ensures !Tangent(c, p) ==> PointInBounds(p, c.bounds)
  {
    if SdfSphere(c) {
      var r := c.sphere.radius + c.smoothRadius;
      AxisReach(p.x, c.sphere.centerX, r);
      AxisReach(p.y, c.sphere.centerY, r);
      AxisReach(p.z, c.sphere.centerZ, r);
    }
  }

  /** The integer interval covers the real one, and reaches less than one unit past either end. */
  predicate TightAround(minimum: int, maximum: int, center: int, reach: nat) {
    && minimum * COORDINATE_SCALE <= center - reach < (minimum + 1) * COORDINATE_SCALE
    && (maximum - 1) * COORDINATE_SCALE < center + reach <= maximum * COORDINATE_SCALE
  }

  /** The integer bounds of a sphere are tight on every axis. */
  lemma BoundsAreTight(c: EditCommand)
    requires ValidCommand(c) && c.shape == SPHERE
    ensures
      var r := c.sphere.radius + c.smoothRadius;
      && TightAround(c.bounds.minimum.x, c.bounds.maximum.x, c.sphere.centerX, r)
      && TightAround(c.bounds.minimum.y, c.bounds.maximum.y, c.sphere.centerY, r)
      && TightAround(c.bounds.minimum.z, c.bounds.maximum.z, c.sphere.centerZ, r)
  {
    var r := c.sphere.radius + c.smoothRadius;
    AxisIsTight(c.sphere.centerX, r);
    AxisIsTight(c.sphere.centerY, r);
    AxisIsTight(c.sphere.centerZ, r);
  }

  lemma AxisIsTight(center: int, reach: nat)
    ensures TightAround(FloorQ16(center - reach), CeilQ16(center + reach), center, reach)
  {
    FloorDivideIsFloor(center - reach, COORDINATE_SCALE);
    CeilDivideIsCeiling(center + reach, COORDINATE_SCALE);
  }

  lemma ValidBoundsAreOrdered(c: EditCommand)
    requires ValidCommand(c)
    ensures c.bounds.minimum.x <= c.bounds.maximum.x
    ensures c.bounds.minimum.y <= c.bounds.maximum.y
    ensures c.bounds.minimum.z <= c.bounds.maximum.z
    ensures -0x8000_0000_0000 <= c.bounds.minimum.x && c.bounds.maximum.x <= 0x8000_0000_0000
    ensures -0x8000_0000_0000 <= c.bounds.minimum.y && c.bounds.maximum.y <= 0x8000_0000_0000
    ensures -0x8000_0000_0000 <= c.bounds.minimum.z && c.bounds.maximum.z <= 0x8000_0000_0000
  {
    if c.shape == SPHERE {
      var r := c.sphere.radius + c.smoothRadius;
      OrderedQ16(c.sphere.centerX - r, c.sphere.centerX + r);
      OrderedQ16(c.sphere.centerY - r, c.sphere.centerY + r);
      OrderedQ16(c.sphere.centerZ - r, c.sphere.centerZ + r);
    } else {
      OrderedQ16(c.box.minimumX, c.box.maximumX);
      OrderedQ16(c.box.minimumY, c.box.maximumY);
      OrderedQ16(c.box.minimumZ, c.box.maximumZ);
    }
  }

  lemma OrderedQ16(low: I64, high: I64)
    requires low <= high
    ensures -0x8000_0000_0000 <= FloorQ16(low) <= CeilQ16(high) <= 0x8000_0000_0000
  {
    FloorDivideIsFloor(low, COORDINATE_SCALE);
    CeilDivideIsCeiling(high, COORDINATE_SCALE);
  }
}
