/** Retained surface-shift records: the edges that name them and when a replayed page may still use them. */
module SurfaceShift {
  import opened Numbers
  import opened Floats
  import opened ChunkKeys
  import opened EditCommands
  import opened SampleEdits
  import opened PageEdits
  import opened PageProperties

  const AXIS_EDGE_COUNT := 4624
  const EDGE_COUNT := 13872

  datatype CellSample = CellSample(density: Float, gradientX: Float, gradientY: Float, gradientZ: Float,
                                   material: U16, authored: bool)

  datatype ShiftRecord = ShiftRecord(edge: U16, offset: U32, a: CellSample, b: CellSample)

  datatype RetainedPage = RetainedPage(key: ChunkKey, cellSpacing: U64, shiftValid: bool, isovalue: Float,
                                       records: seq<ShiftRecord>)

  datatype ResolvedEdge = ResolvedEdge(fineA: GridPoint, fineB: GridPoint, a: CellSample, b: CellSample)

  predicate ValidGeometry(page: RetainedPage) {
    ValidKey(page.key) && page.cellSpacing == CellSize(page.key.lod)
  }

  // ---- Edge numbering ----

  datatype LatticeEdge = LatticeEdge(axis: int, x: int, y: int, z: int)

  predicate ValidEdge(e: LatticeEdge) {
    && 0 <= e.axis <= 2 && 0 <= e.x <= 16 && 0 <= e.y <= 16 && 0 <= e.z <= 16
    && (e.axis == 0 ==> e.x < 16) && (e.axis == 1 ==> e.y < 16) && (e.axis == 2 ==> e.z < 16)
  }

  function EdgeNumber(e: LatticeEdge): int {
    e.axis * AXIS_EDGE_COUNT +
    (if e.axis == 0 then (e.z * 17 + e.y) * 16 + e.x
     else if e.axis == 1 then (e.z * 16 + e.y) * 17 + e.x
     else (e.z * 17 + e.y) * 17 + e.x)
  }

  function EdgeAlong(axis: int, local: int): LatticeEdge {
    if axis == 0 then LatticeEdge(0, local % 16, local / 16 % 17, local / 16 / 17)
    else if axis == 1 then LatticeEdge(1, local % 17, local / 17 % 16, local / 17 / 16)
    else LatticeEdge(2, local % 17, local / 17 % 17, local / 17 / 17)
  }

  function DecodeEdge(index: U16): Option<LatticeEdge> {
    if index >= EDGE_COUNT then None else Some(EdgeAlong(index / AXIS_EDGE_COUNT, index % AXIS_EDGE_COUNT))
  }

  lemma NumberThenDecode(e: LatticeEdge)
    requires ValidEdge(e)
    ensures 0 <= EdgeNumber(e) < EDGE_COUNT && DecodeEdge(EdgeNumber(e)) == Some(e)
  {
    var local := EdgeNumber(e) - e.axis * AXIS_EDGE_COUNT;
    assert 0 <= local < AXIS_EDGE_COUNT;
    AxisThenLocal(e.axis, local);
    hide EdgeAlong;
    DigitsAlong(e, local);
  }

  lemma DigitsAlong(e: LatticeEdge, local: int)
    requires ValidEdge(e) && local == EdgeNumber(e) - e.axis * AXIS_EDGE_COUNT
    ensures EdgeAlong(e.axis, local) == e
  {
    if e.axis == 0 {
      DigitsOf(e.x, e.y, e.z, 16, 17);
    } else if e.axis == 1 {
      DigitsOf(e.x, e.y, e.z, 17, 16);
    } else {
      DigitsOf(e.x, e.y, e.z, 17, 17);
    }
  }

  lemma AxisThenLocal(axis: int, local: int)
    requires 0 <= axis <= 2 && 0 <= local < AXIS_EDGE_COUNT
    ensures 0 <= axis * AXIS_EDGE_COUNT + local < EDGE_COUNT
    ensures (axis * AXIS_EDGE_COUNT + local) / AXIS_EDGE_COUNT == axis
    ensures (axis * AXIS_EDGE_COUNT + local) % AXIS_EDGE_COUNT == local
  {}

  lemma DigitsOf(x: int, y: int, z: int, m: nat, n: nat)
    requires 0 <= x < m && 0 <= y < n && (m == 16 || m == 17) && (n == 16 || n == 17)
    ensures ((z * n + y) * m + x) % m == x && ((z * n + y) * m + x) / m == z * n + y
    ensures (z * n + y) % n == y && (z * n + y) / n == z
  {
    QuotientAndRemainder(z * n + y, x, m);
    QuotientAndRemainder(z, y, n);
  }

  lemma QuotientAndRemainder(q: int, r: int, d: nat)
    requires 0 <= r < d && (d == 16 || d == 17)
    ensures (q * d + r) % d == r && (q * d + r) / d == q
  {
    if d == 16 {
      assert (q * 16 + r) / 16 == q;
    } else {
      assert (q * 17 + r) / 17 == q;
    }
  }

  lemma DecodeThenNumber(index: U16)
    ensures DecodeEdge(index).Some? <==> index < 3 * 16 * 17 * 17
    ensures DecodeEdge(index).Some? ==> ValidEdge(DecodeEdge(index).value) && EdgeNumber(DecodeEdge(index).value) == index
  {
    if index >= EDGE_COUNT { return; }
    var local := index % AXIS_EDGE_COUNT;
    assert index == index / AXIS_EDGE_COUNT * AXIS_EDGE_COUNT + local;
    if index / AXIS_EDGE_COUNT == 0 {
      DigitsBack(local, 16, 17);
    } else if index / AXIS_EDGE_COUNT == 1 {
      DigitsBack(local, 17, 16);
    } else {
      DigitsBack(local, 17, 17);
    }
  }

  lemma DigitsBack(v: nat, m: nat, n: nat)
    requires (m == 16 || m == 17) && (n == 16 || n == 17)
    ensures v == (v / m / n * n + v / m % n) * m + v % m
  {
    assert v == v / m * m + v % m;
    assert v / m == v / m / n * n + v / m % n;
  }

  /** The cell coordinate of a grid coordinate, when it lies on the chunk's lattice. */
  function LatticeAxis(coordinate: int, minimum: int, spacing: int): Option<int>
    requires spacing > 0
  {
    var d := coordinate - minimum;
    if TruncatedRemainder(d, spacing) != 0 then None
    else
      var v := TruncatedQuotient(d, spacing);
      if v < 0 || v > CELLS_PER_AXIS then None else Some(v)
  }

  lemma LatticeAxisIsExact(coordinate: int, minimum: int, lod: U8, v: int)
    requires lod <= MAXIMUM_LOD
    ensures CellSize(lod) > 0
    ensures LatticeAxis(coordinate, minimum, CellSize(lod)) == Some(v)
       <==> 0 <= v <= CELLS_PER_AXIS && coordinate == minimum + Cells(v, lod)
  {
    CellSizeIsPositive(lod);
    ScaledIsProduct(v, lod);
    var s := CellSize(lod);
    var d := coordinate - minimum;
    if 0 <= v && d == v * s {
      QuotientIsExact(v, s);
    }
  }

  lemma QuotientIsExact(v: nat, s: int)
    requires s > 0
    ensures v * s >= 0 && TruncatedQuotient(v * s, s) == v
  {
    assert v * s >= 0;
    var q := v * s / s;
    QuotientBounds(v * s, s);
    assert (q + 1) * s == q * s + s && (v + 1) * s == v * s + s;
    MultiplesKeepOrder(q, v + 1, s);
    MultiplesKeepOrder(v, q + 1, s);
  }

  function Difference(a: GridPoint, b: GridPoint, axis: int): int
    requires 0 <= axis <= 2
  {
    if axis == 0 then b.x - a.x else if axis == 1 then b.y - a.y else b.z - a.z
  }

  /** The one axis along which the end points differ by exactly one cell. */
  function EdgeAxis(a: GridPoint, b: GridPoint, spacing: int): Option<int> {
    var dx, dy, dz := b.x - a.x, b.y - a.y, b.z - a.z;
    if dx != 0 then
      if dy == 0 && dz == 0 && (dx == spacing || dx == -spacing) then Some(0) else None
    else if dy != 0 then
      if dz == 0 && (dy == spacing || dy == -spacing) then Some(1) else None
    else if dz != 0 && (dz == spacing || dz == -spacing) then Some(2) else None
  }

  datatype NamedEdge = NamedEdge(edge: LatticeEdge, reversed: bool)

  /** The record edge two end points name on a chunk, and whether they are given backwards. */
  function FindEdge(page: RetainedPage, a: GridPoint, b: GridPoint): Option<NamedEdge> {
    if !ValidGeometry(page) || CellSize(page.key.lod) <= 0 then None
    else
      var s := CellSize(page.key.lod);
      var axis := EdgeAxis(a, b, s);
      if axis.None? then None
      else
        var reversed := Difference(a, b, axis.value) < 0;
        var start := if reversed then b else a;
        var low := ChunkBounds(page.key).minimum;
        var x, y, z := LatticeAxis(start.x, low.x, s), LatticeAxis(start.y, low.y, s), LatticeAxis(start.z, low.z, s);
        if x.None? || y.None? || z.None? then None
        else
          var e := LatticeEdge(axis.value, x.value, y.value, z.value);
          if (if e.axis == 0 then e.x else if e.axis == 1 then e.y else e.z) >= CELLS_PER_AXIS then None
          else Some(NamedEdge(e, reversed))
  }

  function EdgeStart(key: ChunkKey, e: LatticeEdge): GridPoint {
    SamplePoint(key, e.x, e.y, e.z)
  }

  function EdgeEnd(key: ChunkKey, e: LatticeEdge): GridPoint {
    var p, s := EdgeStart(key, e), CellSize(key.lod);
    if e.axis == 0 then p.(x := p.x + s) else if e.axis == 1 then p.(y := p.y + s) else p.(z := p.z + s)
  }

  /** The end points of edge e, in the given direction of travel. */
  predicate EndPoints(key: ChunkKey, e: LatticeEdge, reversed: bool, a: GridPoint, b: GridPoint) {
    if reversed then b == EdgeStart(key, e) && a == EdgeEnd(key, e) else a == EdgeStart(key, e) && b == EdgeEnd(key, e)
  }

  lemma StartOnLattice(key: ChunkKey, p: GridPoint, e: LatticeEdge)
    requires ValidKey(key)
    ensures CellSize(key.lod) > 0
    ensures
      var low, s := ChunkBounds(key).minimum, CellSize(key.lod);
      (LatticeAxis(p.x, low.x, s) == Some(e.x) && LatticeAxis(p.y, low.y, s) == Some(e.y)
       && LatticeAxis(p.z, low.z, s) == Some(e.z))
      <==> (p == EdgeStart(key, e) && 0 <= e.x <= 16 && 0 <= e.y <= 16 && 0 <= e.z <= 16)
  {
    var low := ChunkBounds(key).minimum;
    LatticeAxisIsExact(p.x, low.x, key.lod, e.x);
    LatticeAxisIsExact(p.y, low.y, key.lod, e.y);
    LatticeAxisIsExact(p.z, low.z, key.lod, e.z);
  }

  /** Naming an edge and listing its end points are inverse, in both directions of travel. */
  lemma EdgeNamesAreExact(page: RetainedPage, a: GridPoint, b: GridPoint, e: LatticeEdge, reversed: bool)
    requires ValidGeometry(page)
    ensures FindEdge(page, a, b) == Some(NamedEdge(e, reversed))
       <==> ValidEdge(e) && EndPoints(page.key, e, reversed, a, b)
  {
    StartOnLattice(page.key, if reversed then b else a, e);
  }

  lemma NamedEdgeIsInsideTheChunk(page: RetainedPage, a: GridPoint, b: GridPoint)
    requires FindEdge(page, a, b).Some?
    ensures Inside(SegmentBox(a, b), ChunkBounds(page.key))
  {
    var named := FindEdge(page, a, b).value;
    EdgeNamesAreExact(page, a, b, named.edge, named.reversed);
    CellInsideExtent(named.edge.x, page.key.lod);
    CellInsideExtent(named.edge.y, page.key.lod);
    CellInsideExtent(named.edge.z, page.key.lod);
  }

  lemma CellInsideExtent(v: int, lod: U8)
    requires 0 <= v <= 16 && lod <= MAXIMUM_LOD
    ensures 0 <= Cells(v, lod) <= Extent(lod)
    ensures v < 16 ==> 0 <= Cells(v, lod) + CellSize(lod) <= Extent(lod)
  {
    ScaledAdds(0, 0, lod);
    ScaledAdds(v, 1, lod);
    ScaledKeepsOrder(v, 0, lod);
    ScaledKeepsOrder(v + 1, 0, lod);
    ScaledKeepsOrder(16, v, lod);
    ScaledKeepsOrder(16, v + 1, lod);
  }

  // ---- Resolving an edge from the retained record ----

  /** The first record whose edge is not below the wanted one; records are kept in edge order. */
  function FirstRecordFrom(records: seq<ShiftRecord>, edge: int, from: nat): (k: nat)
    requires from <= |records|
    ensures from <= k <= |records|
    decreases |records| - from
  {
    if from == |records| || records[from].edge >= edge then from else FirstRecordFrom(records, edge, from + 1)
  }

  predicate FiniteCell(s: CellSample) {
    IsFinite(s.density) && IsFinite(s.gradientX) && IsFinite(s.gradientY) && IsFinite(s.gradientZ)
  }

  function ResolveFromRecord(page: RetainedPage, a: GridPoint, b: GridPoint, isovalue: Float): Option<ResolvedEdge> {
    if !page.shiftValid || !IsFinite(isovalue) || !Equal(isovalue, page.isovalue) then None
    else
      var named := FindEdge(page, a, b);
      if named.None? then None
      else
        var k := FirstRecordFrom(page.records, EdgeNumber(named.value.edge), 0);
        if k == |page.records| || page.records[k].edge != EdgeNumber(named.value.edge) then None
        else if page.records[k].offset >= page.cellSpacing then None
        else
          var record := page.records[k];
          var start := EdgeStart(page.key, named.value.edge);
          var axis := named.value.edge.axis;
          var fineA := Along(start, axis, record.offset);
          var fineB := Along(start, axis, record.offset + 1);
          var r := if named.value.reversed then ResolvedEdge(fineB, fineA, record.b, record.a)
                   else ResolvedEdge(fineA, fineB, record.a, record.b);
          if FiniteCell(r.a) && FiniteCell(r.b) && Less(r.a.density, isovalue) != Less(r.b.density, isovalue)
          then Some(r) else None
  }

  function Along(p: GridPoint, axis: int, distance: int): GridPoint {
    if axis == 0 then p.(x := p.x + distance)
    else if axis == 1 then p.(y := p.y + distance) else p.(z := p.z + distance)
  }

  /** Modular difference of two 64-bit values read as unsigned, as the machine computes it. */
  function UnsignedDifference(a: int, b: int): int {
    (a % U64_COUNT - b % U64_COUNT) % U64_COUNT
  }

  predicate Separated(low: int, high: int, dirtyLow: int, dirtyHigh: int) {
    || (low > dirtyHigh && UnsignedDifference(low, dirtyHigh) > 1)
    || (dirtyLow > high && UnsignedDifference(dirtyLow, high) > 1)
  }

  predicate Fits64(p: GridPoint) {
    I64_MIN <= p.x <= I64_MAX && I64_MIN <= p.y <= I64_MAX && I64_MIN <= p.z <= I64_MAX
  }

  lemma UnsignedDifferenceIsExact(a: I64, b: I64)
    requires a > b
    ensures UnsignedDifference(a, b) == a - b
  {
    assert a % U64_COUNT == (if a >= 0 then a else a + U64_COUNT);
    assert b % U64_COUNT == (if b >= 0 then b else b + U64_COUNT);
  }

  /** The overflow-free test says exactly that more than one grid unit lies between the two intervals. */
  lemma SeparatedIsDistance(low: I64, high: I64, dirtyLow: I64, dirtyHigh: I64)
    ensures Separated(low, high, dirtyLow, dirtyHigh) <==> low > dirtyHigh + 1 || dirtyLow > high + 1
  {
    if low > dirtyHigh {
      UnsignedDifferenceIsExact(low, dirtyHigh);
    }
    if dirtyLow > high {
      UnsignedDifferenceIsExact(dirtyLow, high);
    }
  }

  function SegmentBox(a: GridPoint, b: GridPoint): Box3 {
    Box3(GridPoint(Min(a.x, b.x), Min(a.y, b.y), Min(a.z, b.z)), GridPoint(Max(a.x, b.x), Max(a.y, b.y), Max(a.z, b.z)))
  }

  /** A record answers an edge only when the page has dirty bounds and the edge keeps clear of them. */
  function ResolveMultiresolutionEdge(page: RetainedPage, dirty: Option<Box3>, a: GridPoint, b: GridPoint, isovalue: Float)
    : Option<ResolvedEdge>
  {
    if dirty.None? || !page.shiftValid then None
    else
      var s, d := SegmentBox(a, b), dirty.value;
      var intersects :=
        && !Separated(s.minimum.x, s.maximum.x, d.minimum.x, d.maximum.x)
        && !Separated(s.minimum.y, s.maximum.y, d.minimum.y, d.maximum.y)
        && !Separated(s.minimum.z, s.maximum.z, d.minimum.z, d.maximum.z);
      if intersects then None else ResolveFromRecord(page, a, b, isovalue)
  }

  /** At least two units apart on some axis. */
  predicate FarApart(a: Box3, b: Box3) {
    !BoundsMeet(Widened(a, 1), b)
  }

  lemma AnsweredEdgeIsFar(page: RetainedPage, dirty: Box3, a: GridPoint, b: GridPoint, isovalue: Float)
    requires Fits64(a) && Fits64(b) && Fits64(dirty.minimum) && Fits64(dirty.maximum)
    requires ResolveMultiresolutionEdge(page, Some(dirty), a, b, isovalue).Some?
    ensures FarApart(SegmentBox(a, b), dirty) && Inside(SegmentBox(a, b), ChunkBounds(page.key)) && ValidKey(page.key)
  {
    var s := SegmentBox(a, b);
    SeparatedIsDistance(s.minimum.x, s.maximum.x, dirty.minimum.x, dirty.maximum.x);
    SeparatedIsDistance(s.minimum.y, s.maximum.y, dirty.minimum.y, dirty.maximum.y);
    SeparatedIsDistance(s.minimum.z, s.maximum.z, dirty.minimum.z, dirty.maximum.z);
    NamedEdgeIsInsideTheChunk(page, a, b);
  }

  // ---- Soundness of reuse ----

  /** An accepted replay contains valid commands only, and its hull stays within 64 bits. */
  lemma {:induction false} ReplayedCommandsAreValid(ar: Arithmetic, st: PageState, commands: seq<EditCommand>)
    requires Replay(ar, st, commands).status == Ok
    ensures forall c :: c in commands ==> ValidCommand(c)
    decreases |commands|
  {
    if |commands| > 0 {
      ReplayedCommandsAreValid(ar, ApplyCommand(ar, st, commands[0]).state, commands[1..]);
    }
  }

  const WORLD_BOX: Box3 :=
    Box3(GridPoint(-0x8000_0000_0000, -0x8000_0000_0000, -0x8000_0000_0000),
         GridPoint(0x8000_0000_0000, 0x8000_0000_0000, 0x8000_0000_0000))

  /** A seen command lies in the hull, so it cannot cover an answered edge; its unit halo only at a tangent pole. */
  lemma SeenCommandKeepsClear(c: EditCommand, hull: Box3, s: Box3, q: GridPoint)
    requires ValidCommand(c) && Inside(c.bounds, hull) && FarApart(s, hull) && PointInBounds(q, Widened(s, 1))
    ensures PointInBounds(q, s) ==> !Contains(c, q)
    ensures Contains(c, q) ==> Tangent(c, q)
  {
    if Contains(c, q) {
      CoverageStaysNearBounds(c, q);
    }
  }

  /** A command the coarse page skips cannot cover the chunk or its unit halo at all. */
  lemma SkippedCommandKeepsClear(c: EditCommand, key: ChunkKey, q: GridPoint)
    requires ValidCommand(c) && ValidKey(key) && key.lod > 0 && !MayIntersectPage(key, c.bounds)
    requires PointInBounds(q, Widened(ChunkBounds(key), 1))
    ensures !Contains(c, q)
  {
    CellSizeIsPositive(key.lod - 1);
    assert CellSize(key.lod) >= 2;
    if Contains(c, q) {
      CoverageStaysNearBounds(c, q);
    }
  }

  /** For any replay on a coarse page: a point of an answered edge is covered by no command, and a point of its
      unit gradient halo by none that is not exactly tangent there. */
  lemma AnsweredEdgeIsUntouched(ar: Arithmetic, st: PageState, commands: seq<EditCommand>, page: RetainedPage,
                                a: GridPoint, b: GridPoint, isovalue: Float, q: GridPoint)
    requires Replay(ar, st, commands).status == Ok && st.hull == None
    requires page.key == st.key && st.key.lod > 0 && Fits64(a) && Fits64(b)
    requires PointInBounds(q, Widened(SegmentBox(a, b), 1))
    ensures ResolveMultiresolutionEdge(page, Replay(ar, st, commands).state.hull, a, b, isovalue).Some? ==>
      forall c :: c in commands ==> (PointInBounds(q, SegmentBox(a, b)) ==> !Contains(c, q)) && (Contains(c, q) ==> Tangent(c, q))
  {
    if ResolveMultiresolutionEdge(page, Replay(ar, st, commands).state.hull, a, b, isovalue).None? { return; }
    var hull := Replay(ar, st, commands).state.hull.value;
    ReplayedCommandsAreValid(ar, st, commands);
    ReplayBookkeeping(ar, st, commands);
    HullFits(ar, st, commands);
    AnsweredEdgeIsFar(page, hull, a, b, isovalue);
    forall c | c in commands
      ensures PointInBounds(q, SegmentBox(a, b)) ==> !Contains(c, q)
      ensures Contains(c, q) ==> Tangent(c, q)
    {
      if MayIntersectPage(st.key, c.bounds) {
        SeenCommandKeepsClear(c, hull, SegmentBox(a, b), q);
      } else {
        SkippedCommandKeepsClear(c, st.key, q);
      }
    }
  }

  lemma HullFits(ar: Arithmetic, st: PageState, commands: seq<EditCommand>)
    requires Replay(ar, st, commands).status == Ok && st.hull == None
    ensures var h := Replay(ar, st, commands).state.hull; h.Some? ==> Inside(h.value, WORLD_BOX)
    ensures var h := Replay(ar, st, commands).state.hull; h.Some? ==> Fits64(h.value.minimum) && Fits64(h.value.maximum)
  {
    ReplayedCommandsAreValid(ar, st, commands);
    forall c | c in commands ensures Inside(c.bounds, WORLD_BOX) {
      ValidBoundsAreOrdered(c);
    }
    HullIsLeast(ar, st, commands, WORLD_BOX);
    ReplayHullIsOrdered(ar, st, commands);
  }

  lemma {:induction false} ReplayHullIsOrdered(ar: Arithmetic, st: PageState, commands: seq<EditCommand>)
    requires Replay(ar, st, commands).status == Ok
    requires st.hull.Some? ==> Ordered(st.hull.value)
    ensures var h := Replay(ar, st, commands).state.hull; h.Some? ==> Ordered(h.value)
    decreases |commands|
  {
    if |commands| > 0 {
      ValidBoundsAreOrdered(commands[0]);
      ReplayHullIsOrdered(ar, ApplyCommand(ar, st, commands[0]).state, commands[1..]);
    }
  }

  predicate Ordered(b: Box3) {
    b.minimum.x <= b.maximum.x && b.minimum.y <= b.maximum.y && b.minimum.z <= b.maximum.z
  }

  /** What the record was taken from is still there: the edited field equals the original at every edge point. */
  lemma RetainedRecordIsSound(ar: Arithmetic, st: PageState, commands: seq<EditCommand>, page: RetainedPage,
                              a: GridPoint, b: GridPoint, isovalue: Float, q: GridPoint, original: ScalarSample)
    requires Replay(ar, st, commands).status == Ok && st.hull == None
    requires page.key == st.key && st.key.lod > 0 && Fits64(a) && Fits64(b)
    requires PointInBounds(q, Widened(SegmentBox(a, b), 1))
    requires PointInBounds(q, SegmentBox(a, b)) || forall c :: c in commands ==> !Tangent(c, q)
    ensures ResolveMultiresolutionEdge(page, Replay(ar, st, commands).state.hull, a, b, isovalue).Some? ==>
      PointReplay(ar, st.protection, commands, q, original) == original
  {
    hide ResolveMultiresolutionEdge, Contains, Tangent, Replay, PointReplay;
    AnsweredEdgeIsUntouched(ar, st, commands, page, a, b, isovalue, q);
    if ResolveMultiresolutionEdge(page, Replay(ar, st, commands).state.hull, a, b, isovalue).Some? {
      UncoveredPointIsUnchanged(ar, st.protection, commands, q, original);
    }
  }

  lemma {:induction false} UncoveredPointIsUnchanged(ar: Arithmetic, protection: Protection, commands: seq<EditCommand>,
                                                     q: GridPoint, original: ScalarSample)
    requires forall c :: c in commands ==> !Contains(c, q)
    ensures PointReplay(ar, protection, commands, q, original) == original
    decreases |commands|
  {
    if |commands| > 0 {
      UncoveredPointIsUnchanged(ar, protection, commands[1..], q, original);
    }
  }

  /** The segment the record refines lies on the edge: its fine end points are points of the edge. */
  lemma ResolvedSegmentIsOnTheEdge(page: RetainedPage, a: GridPoint, b: GridPoint, isovalue: Float)
    requires ResolveFromRecord(page, a, b, isovalue).Some?
    ensures
      var r := ResolveFromRecord(page, a, b, isovalue).value;
      PointInBounds(r.fineA, SegmentBox(a, b)) && PointInBounds(r.fineB, SegmentBox(a, b))
  {
    var named := FindEdge(page, a, b).value;
    EdgeNamesAreExact(page, a, b, named.edge, named.reversed);
  }
}
