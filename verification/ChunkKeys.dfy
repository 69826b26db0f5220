/** Octree chunk keys, the boxes they name, and the bricks that stand for child chunks. */
module ChunkKeys {
  import opened Numbers

  const MAXIMUM_LOD := 20
  const CELLS_PER_AXIS := 16
  const BRICK_CELLS_PER_AXIS := 8
  const BRICK_COUNT := 8

  datatype GridPoint = GridPoint(x: int, y: int, z: int)

  datatype Box3 = Box3(minimum: GridPoint, maximum: GridPoint)

  datatype ChunkKey = ChunkKey(x: I32, y: I32, z: I32, lod: U8)

  predicate ValidKey(key: ChunkKey) {
    key.lod <= MAXIMUM_LOD
  }

  /** v * 2^level, by doubling. */
  function Scaled(v: int, level: nat): int {
    if level == 0 then v else 2 * Scaled(v, level - 1)
  }

  /** v cells of the given level, in grid units; a level past the coarsest has no cells. */
  function Cells(v: int, lod: U8): int {
    if lod <= MAXIMUM_LOD then Scaled(v, lod) else 0
  }

  function CellSize(lod: U8): int { Cells(1, lod) }

  function Extent(lod: U8): int { Cells(CELLS_PER_AXIS, lod) }

  function ChunkBounds(key: ChunkKey): Box3 {
    var e := Extent(key.lod);
    var low := GridPoint(Cells(CELLS_PER_AXIS * key.x, key.lod),
                         Cells(CELLS_PER_AXIS * key.y, key.lod),
                         Cells(CELLS_PER_AXIS * key.z, key.lod));
    Box3(low, GridPoint(low.x + e, low.y + e, low.z + e))
  }

  lemma {:induction false} ScaledAdds(a: int, b: int, level: nat)
    ensures Scaled(a + b, level) == Scaled(a, level) + Scaled(b, level)
  {
    if level > 0 {
      ScaledAdds(a, b, level - 1);
    }
  }

  lemma {:induction false} ScaledKeepsOrder(a: int, b: int, level: nat)
    ensures a < b <==> Scaled(a, level) < Scaled(b, level)
    ensures a == b <==> Scaled(a, level) == Scaled(b, level)
  {
    if level > 0 {
      ScaledKeepsOrder(a, b, level - 1);
    }
  }

  lemma {:induction false} ScaledTwice(v: int, level: nat)
    ensures Scaled(2 * v, level) == Scaled(v, level + 1)
  {
    if level > 0 {
      ScaledTwice(v, level - 1);
    }
  }

  lemma {:induction false} ScaledMultiples(v: int, m: nat, level: nat)
    ensures Scaled(m * v, level) == m * Scaled(v, level)
  {
    if level > 0 {
      ScaledMultiples(v, m, level - 1);
      assert 2 * (m * Scaled(v, level - 1)) == m * (2 * Scaled(v, level - 1));
    }
  }

  lemma {:induction false} CellSizeIsPositive(level: nat)
    ensures Scaled(1, level) >= 1
    ensures Scaled(16, level) == 16 * Scaled(1, level)
    ensures Scaled(17, level) == 17 * Scaled(1, level)
  {
    if level > 0 {
      CellSizeIsPositive(level - 1);
    }
  }

  /** Counting cells by doubling is multiplying by the cell size, as the program does. */
  lemma {:induction false} ScaledIsProduct(v: int, level: nat)
    ensures Scaled(v, level) == v * Scaled(1, level)
  {
    if level > 0 {
      ScaledIsProduct(v, level - 1);
      assert 2 * (v * Scaled(1, level - 1)) == v * (2 * Scaled(1, level - 1));
    }
  }

  function HalveKeyAxis(value: I32): (h: I32)
    ensures 2 * h <= value <= 2 * h + 1
  {
    var v: int := value;
    if v >= 0 then v / 2 else -((-v + 1) / 2)
  }

  function ParentKey(key: ChunkKey): ChunkKey {
    if !ValidKey(key) || key.lod == MAXIMUM_LOD then key
    else ChunkKey(HalveKeyAxis(key.x), HalveKeyAxis(key.y), HalveKeyAxis(key.z), key.lod + 1)
  }

  /** The key reached after taking the parent `levels` times. */
  function Ancestor(key: ChunkKey, levels: nat): ChunkKey
    decreases levels
  {
    if levels == 0 then key else Ancestor(ParentKey(key), levels - 1)
  }

  predicate AncestorOrSelf(upper: ChunkKey, lower: ChunkKey) {
    lower.lod <= upper.lod && Ancestor(lower, upper.lod - lower.lod) == upper
  }

  predicate OpenOverlap(a: Box3, b: Box3) {
    && a.minimum.x < b.maximum.x && b.minimum.x < a.maximum.x
    && a.minimum.y < b.maximum.y && b.minimum.y < a.maximum.y
    && a.minimum.z < b.maximum.z && b.minimum.z < a.maximum.z
  }

  predicate Inside(inner: Box3, outer: Box3) {
    && outer.minimum.x <= inner.minimum.x && inner.maximum.x <= outer.maximum.x
    && outer.minimum.y <= inner.minimum.y && inner.maximum.y <= outer.maximum.y
    && outer.minimum.z <= inner.minimum.z && inner.maximum.z <= outer.maximum.z
  }

  // ---- Octree nesting ----

  predicate AxisOverlap(u: int, upper: U8, v: int, lower: U8) {
    && Cells(CELLS_PER_AXIS * u, upper) < Cells(CELLS_PER_AXIS * v, lower) + Extent(lower)
    && Cells(CELLS_PER_AXIS * v, lower) < Cells(CELLS_PER_AXIS * u, upper) + Extent(upper)
  }

  lemma {:induction false} ScaledSplits(v: int, a: nat, b: nat)
    ensures Scaled(v, a + b) == Scaled(Scaled(v, b), a)
  {
    if a > 0 {
      ScaledSplits(v, a - 1, b);
    }
  }

  /** Both ends of a coarse cell lie on multiples of the finer extent. */
  lemma CoarseCellOnFineGrid(u: int, upper: U8, lower: U8)
    requires lower <= upper <= MAXIMUM_LOD
    ensures
      var n, m := Scaled(u, upper - lower), Scaled(u + 1, upper - lower);
      && Cells(CELLS_PER_AXIS * u, upper) == Scaled(16 * n, lower)
      && Cells(CELLS_PER_AXIS * u, upper) + Extent(upper) == Scaled(16 * m, lower)
  {
    ScaledSplits(16 * u, lower, upper - lower);
    ScaledSplits(16 * (u + 1), lower, upper - lower);
    ScaledMultiples(u, 16, upper - lower);
    ScaledMultiples(u + 1, 16, upper - lower);
    ScaledAdds(16 * u, 16, upper);
    assert 16 * u + 16 == 16 * (u + 1);
  }

  /** Cells overlap exactly when, counted in finer extents, the fine cell number falls in the coarse range. */
  lemma AxisOverlapByNumber(u: int, upper: U8, v: int, lower: U8)
    requires lower <= upper <= MAXIMUM_LOD
    ensures AxisOverlap(u, upper, v, lower) <==> Scaled(u, upper - lower) <= v < Scaled(u + 1, upper - lower)
  {
    var n, m := Scaled(u, upper - lower), Scaled(u + 1, upper - lower);
    CoarseCellOnFineGrid(u, upper, lower);
    ScaledAdds(16 * v, 16, lower);
    ScaledKeepsOrder(16 * n, 16 * v + 16, lower);
    ScaledKeepsOrder(16 * v, 16 * m, lower);
  }

  lemma AxisOverlapOfParent(u: int, upper: U8, v: I32, lower: U8)
    requires lower < upper <= MAXIMUM_LOD
    ensures AxisOverlap(u, upper, v, lower) <==> AxisOverlap(u, upper, HalveKeyAxis(v), lower + 1)
  {
    AxisOverlapByNumber(u, upper, v, lower);
    AxisOverlapByNumber(u, upper, HalveKeyAxis(v), lower + 1);
  }

  lemma OverlapByAxis(upper: ChunkKey, lower: ChunkKey)
    ensures OpenOverlap(ChunkBounds(upper), ChunkBounds(lower))
       <==> AxisOverlap(upper.x, upper.lod, lower.x, lower.lod)
            && AxisOverlap(upper.y, upper.lod, lower.y, lower.lod)
            && AxisOverlap(upper.z, upper.lod, lower.z, lower.lod)
  {}

  /** Replacing the finer key by its parent does not change whether it meets a coarser box. */
  lemma ParentKeepsOverlap(upper: ChunkKey, lower: ChunkKey)
    requires ValidKey(upper) && lower.lod < upper.lod
    ensures OpenOverlap(ChunkBounds(upper), ChunkBounds(lower))
       <==> OpenOverlap(ChunkBounds(upper), ChunkBounds(ParentKey(lower)))
  {
    OverlapByAxis(upper, lower);
    OverlapByAxis(upper, ParentKey(lower));
    AxisOverlapOfParent(upper.x, upper.lod, lower.x, lower.lod);
    AxisOverlapOfParent(upper.y, upper.lod, lower.y, lower.lod);
    AxisOverlapOfParent(upper.z, upper.lod, lower.z, lower.lod);
  }

  lemma EqualLevelsOverlapOnlyWhenEqual(a: ChunkKey, b: ChunkKey)
    requires ValidKey(a) && a.lod == b.lod
    ensures OpenOverlap(ChunkBounds(a), ChunkBounds(b)) <==> a == b
  {
    OverlapByAxis(a, b);
    AxisOverlapByNumber(a.x, a.lod, b.x, b.lod);
    AxisOverlapByNumber(a.y, a.lod, b.y, b.lod);
    AxisOverlapByNumber(a.z, a.lod, b.z, b.lod);
  }

  lemma {:induction false} CoarserOverlapIsAncestry(upper: ChunkKey, lower: ChunkKey)
    requires ValidKey(upper) && lower.lod <= upper.lod
    ensures OpenOverlap(ChunkBounds(upper), ChunkBounds(lower)) <==> AncestorOrSelf(upper, lower)
    decreases upper.lod - lower.lod
  {
    if lower.lod == upper.lod {
      EqualLevelsOverlapOnlyWhenEqual(upper, lower);
    } else {
      ParentKeepsOverlap(upper, lower);
      CoarserOverlapIsAncestry(upper, ParentKey(lower));
    }
  }

  /** Chunk boxes are nested or disjoint: two of them share interior exactly when one is an ancestor of the other. */
  lemma NestedOrDisjoint(a: ChunkKey, b: ChunkKey)
    requires ValidKey(a) && ValidKey(b)
    ensures OpenOverlap(ChunkBounds(a), ChunkBounds(b)) <==> AncestorOrSelf(a, b) || AncestorOrSelf(b, a)
  {
    if b.lod <= a.lod {
      CoarserOverlapIsAncestry(a, b);
      if a.lod == b.lod {
        CoarserOverlapIsAncestry(b, a);
      }
    } else {
      CoarserOverlapIsAncestry(b, a);
    }
  }

  /** Overlapping boxes do not merely meet: the finer one lies inside the coarser one. */
  lemma {:induction false} AncestorContains(upper: ChunkKey, lower: ChunkKey)
    requires ValidKey(upper) && AncestorOrSelf(upper, lower)
    ensures Inside(ChunkBounds(lower), ChunkBounds(upper))
    decreases upper.lod - lower.lod
  {
    if lower.lod < upper.lod {
      var p := ParentKey(lower);
      AncestorContains(upper, p);
      ParentContains(lower);
    }
  }

  lemma ParentContains(key: ChunkKey)
    requires key.lod < MAXIMUM_LOD
    ensures Inside(ChunkBounds(key), ChunkBounds(ParentKey(key)))
  {
    AxisInsideParent(key.x, key.lod);
    AxisInsideParent(key.y, key.lod);
    AxisInsideParent(key.z, key.lod);
  }

  lemma AxisInsideParent(v: I32, lod: U8)
    requires lod < MAXIMUM_LOD
    ensures Cells(16 * HalveKeyAxis(v), lod + 1) <= Cells(16 * v, lod)
    ensures Cells(16 * v, lod) + Extent(lod) <= Cells(16 * HalveKeyAxis(v), lod + 1) + Extent(lod + 1)
  {
    var h: int := HalveKeyAxis(v);
    ScaledTwice(16 * h, lod);
    ScaledTwice(16, lod);
    ScaledAdds(32 * h, 32, lod);
    ScaledAdds(16 * v, 16, lod);
    ScaledKeepsOrder(16 * v, 32 * h, lod);
    ScaledKeepsOrder(32 * h + 32, 16 * v + 16, lod);
  }

  // ---- Bricks ----

  function BrickCoordinate(index: U8): GridPoint {
    if index >= BRICK_COUNT then GridPoint(0, 0, 0)
    else GridPoint(index % 2, index / 2 % 2, index / 4 % 2)
  }

  function BrickBounds(chunk: ChunkKey, index: U8): Box3
    requires ValidKey(chunk) && index < BRICK_COUNT
  {
    var low := ChunkBounds(chunk).minimum;
    var c := BrickCoordinate(index);
    var e := Cells(BRICK_CELLS_PER_AXIS, chunk.lod);
    var m := GridPoint(low.x + c.x * e, low.y + c.y * e, low.z + c.z * e);
    Box3(m, GridPoint(m.x + e, m.y + e, m.z + e))
  }

  /** The brick of `parent` that a direct child chunk occupies. */
  function DirectChildParentBrick(child: ChunkKey, parent: ChunkKey): Option<U8> {
    if !ValidKey(child) || !ValidKey(parent) || child.lod >= MAXIMUM_LOD
       || child.lod + 1 != parent.lod || ParentKey(child) != parent then None
    else
      var x := child.x - parent.x * 2;
      var y := child.y - parent.y * 2;
      var z := child.z - parent.z * 2;
      if x < 0 || x > 1 || y < 0 || y > 1 || z < 0 || z > 1 then None
      else Some(x + y * 2 + z * 4)
  }

  /** The child chunk that a brick stands for; absent when its key leaves the 32-bit range. */
  function BrickChildChunk(parent: ChunkKey, index: U8): Option<ChunkKey> {
    if !ValidKey(parent) || parent.lod == 0 || index >= BRICK_COUNT then None
    else
      var c := BrickCoordinate(index);
      var x := parent.x * 2 + c.x;
      var y := parent.y * 2 + c.y;
      var z := parent.z * 2 + c.z;
      if x < I32_MIN || x > I32_MAX || y < I32_MIN || y > I32_MAX || z < I32_MIN || z > I32_MAX then None
      else Some(ChunkKey(x, y, z, parent.lod - 1))
  }

  /** Brick to child and child to brick are inverse to each other in both directions. */
  lemma BrickAndChildAreInverse(parent: ChunkKey, index: U8, child: ChunkKey)
    requires index < BRICK_COUNT
    ensures BrickChildChunk(parent, index) == Some(child) <==> DirectChildParentBrick(child, parent) == Some(index)
  {
    var c := BrickCoordinate(index);
    assert index == c.x + c.y * 2 + c.z * 4;
  }

  /** A brick and the child chunk it stands for are the same box. */
  lemma BrickIsItsChildBox(parent: ChunkKey, index: U8)
    requires BrickChildChunk(parent, index).Some?
    ensures BrickBounds(parent, index) == ChunkBounds(BrickChildChunk(parent, index).value)
  {
    var c := BrickCoordinate(index);
    ScaledTwice(8, parent.lod - 1);
    ChildAxis(parent.x, c.x, parent.lod);
    ChildAxis(parent.y, c.y, parent.lod);
    ChildAxis(parent.z, c.z, parent.lod);
  }

  lemma ChildAxis(p: int, c: int, lod: U8)
    requires 0 < lod <= MAXIMUM_LOD && 0 <= c <= 1
    ensures Cells(16 * (p * 2 + c), lod - 1) == Cells(16 * p, lod) + c * Cells(8, lod)
  {
    ScaledTwice(16 * p, lod - 1);
    ScaledTwice(8, lod - 1);
    ScaledAdds(2 * (16 * p), 16, lod - 1);
    ScaledTwice(8, lod - 1);
  }

  /** Every direct child has a brick: the local-coordinate check of the program never fails on one. */
  lemma EveryChildHasABrick(child: ChunkKey)
    requires child.lod < MAXIMUM_LOD
    ensures DirectChildParentBrick(child, ParentKey(child)).Some?
  {}
}
