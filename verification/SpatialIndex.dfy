/** The index from edit bounds to the pages whose padded samples they may reach. */
module SpatialIndex {
  import opened Numbers
  import opened ChunkKeys
  import opened SampleEdits

  // ---- Key ranges per axis ----

  /** Key coordinates first..last; empty when first > last. */
  datatype AxisRange = AxisRange(first: int, last: int) {
    predicate Empty() { first > last }

    function Count(): nat { if Empty() then 0 else last - first + 1 }

    /** The ends the enumeration walks between: an empty range leaves both at their initial zero. */
    function Low(): int { if Empty() then 0 else first }

    function High(): int { if Empty() then 0 else last }

    predicate Walked(v: int) { Low() <= v <= High() }
  }

  function SaturatingLower(minimum: I64, padding: int): int {
    if minimum < I64_MIN + padding then I64_MIN else minimum - padding
  }

  function SaturatingUpper(maximum: I64, spacing: int): int {
    if maximum > I64_MAX - spacing then I64_MAX else maximum + spacing
  }

  function KeyRange(minimum: I64, maximum: I64, lod: U8): AxisRange
    requires Extent(lod) > 0
  {
    var spacing, extent := CellSize(lod), Extent(lod);
    AxisRange(Max(CeilDivide(SaturatingLower(minimum, extent + spacing), extent), I32_MIN),
              Min(FloorDivide(SaturatingUpper(maximum, spacing), extent), I32_MAX))
  }

  predicate Bounds64(b: Box3) {
    && I64_MIN <= b.minimum.x <= I64_MAX && I64_MIN <= b.minimum.y <= I64_MAX && I64_MIN <= b.minimum.z <= I64_MAX
    && I64_MIN <= b.maximum.x <= I64_MAX && I64_MIN <= b.maximum.y <= I64_MAX && I64_MIN <= b.maximum.z <= I64_MAX
  }

  predicate ValidBounds(b: Box3) {
    b.minimum.x <= b.maximum.x && b.minimum.y <= b.maximum.y && b.minimum.z <= b.maximum.z
  }

  lemma {:induction false} CellSizeGrows(level: nat, upper: nat)
    requires level <= upper
    ensures 1 <= Scaled(1, level) <= Scaled(1, upper)
    decreases upper - level
  {
    CellSizeIsPositive(level);
    if level < upper {
      CellSizeGrows(level + 1, upper);
    }
  }

  lemma LargestCell()
    ensures Scaled(1, 20) == 0x10_0000
  {
    assert Scaled(1, 10) == 0x400;
    ScaledSplits(1, 10, 10);
    ScaledIsProduct(0x400, 10);
  }

  lemma ExtentFacts(lod: U8)
    requires lod <= MAXIMUM_LOD
    ensures 1 <= CellSize(lod) <= 0x10_0000 && Extent(lod) == 16 * CellSize(lod)
  {
    CellSizeGrows(lod, 20);
    LargestCell();
    CellSizeIsPositive(lod);
  }

  lemma KeyOrigin(k: int, lod: U8)
    requires lod <= MAXIMUM_LOD
    ensures Cells(CELLS_PER_AXIS * k, lod) == k * Extent(lod)
  {
    ScaledMultiples(k, 16, lod);
    ScaledIsProduct(k, lod);
    CellSizeIsPositive(lod);
    assert 16 * (k * Scaled(1, lod)) == k * (16 * Scaled(1, lod));
  }

  predicate AxisMeets(minimum: int, maximum: int, k: int, lod: U8) {
    && maximum >= Cells(CELLS_PER_AXIS * k, lod) - CellSize(lod)
    && minimum <= Cells(CELLS_PER_AXIS * k, lod) + Extent(lod) + CellSize(lod)
  }

  lemma KeyOriginFits(k: I32, e: int)
    requires 0 <= e <= 0x100_0000
    ensures -0x80_0000_0000_0000 <= k * e <= 0x80_0000_0000_0000
  {
    assert (k + 0x8000_0000) * e >= 0 && (0x8000_0000 - k) * e >= 0;
    assert (k + 0x8000_0000) * e == k * e + 0x8000_0000 * e;
    assert (0x8000_0000 - k) * e == 0x8000_0000 * e - k * e;
  }

  /** For 32-bit keys and all 64-bit bounds, saturating ends included, the range is exact. */
  lemma KeyRangeIsExact(minimum: I64, maximum: I64, lod: U8, k: I32)
    requires lod <= MAXIMUM_LOD
    ensures Extent(lod) > 0
    ensures KeyRange(minimum, maximum, lod).first <= k <= KeyRange(minimum, maximum, lod).last
       <==> AxisMeets(minimum, maximum, k, lod)
  {
    ExtentFacts(lod);
    KeyOrigin(k, lod);
    var s, e := CellSize(lod), Extent(lod);
    KeyOriginFits(k, e);
    AtLeastCeiling(k, SaturatingLower(minimum, e + s), e);
    AtMostFloor(k, SaturatingUpper(maximum, s), e);
  }

  /** The bounds reach the padded span of the 32-bit keys on this axis. */
  predicate MeetsKeySpace(minimum: int, maximum: int, lod: U8) {
    && maximum >= Cells(CELLS_PER_AXIS * I32_MIN, lod) - CellSize(lod)
    && minimum <= Cells(CELLS_PER_AXIS * I32_MAX, lod) + Extent(lod) + CellSize(lod)
  }

  lemma EmptyOnlyOutsideKeySpace(minimum: I64, maximum: I64, lod: U8)
    requires lod <= MAXIMUM_LOD && minimum <= maximum
    ensures Extent(lod) > 0
    ensures !KeyRange(minimum, maximum, lod).Empty() <==> MeetsKeySpace(minimum, maximum, lod)
  {
    ExtentFacts(lod);
    KeyOrigin(I32_MIN, lod);
    KeyOrigin(I32_MAX, lod);
    var s, e := CellSize(lod), Extent(lod);
    KeyOriginFits(I32_MIN, e);
    KeyOriginFits(I32_MAX, e);
    var lower, upper := SaturatingLower(minimum, e + s), SaturatingUpper(maximum, s);
    var c := CeilDivide(lower, e);
    AtLeastCeiling(I32_MIN, lower, e);
    AtLeastCeiling(I32_MAX, lower, e);
    AtMostFloor(I32_MIN, upper, e);
    AtMostFloor(c, upper, e);
    CeilDivideIsCeiling(lower, e);
  }

  // ---- Whole keys ----

  predicate Walked(key: ChunkKey, b: Box3)
    requires Bounds64(b)
  {
    && Extent(key.lod) > 0
    && KeyRange(b.minimum.x, b.maximum.x, key.lod).Walked(key.x)
    && KeyRange(b.minimum.y, b.maximum.y, key.lod).Walked(key.y)
    && KeyRange(b.minimum.z, b.maximum.z, key.lod).Walked(key.z)
  }

  /** Reached by the walk only because an empty range on some axis is walked at coordinate zero. */
  predicate Spurious(key: ChunkKey, b: Box3) {
    && (MeetsKeySpace(b.minimum.x, b.maximum.x, key.lod) ==> AxisMeets(b.minimum.x, b.maximum.x, key.x, key.lod))
    && (MeetsKeySpace(b.minimum.y, b.maximum.y, key.lod) ==> AxisMeets(b.minimum.y, b.maximum.y, key.y, key.lod))
    && (MeetsKeySpace(b.minimum.z, b.maximum.z, key.lod) ==> AxisMeets(b.minimum.z, b.maximum.z, key.z, key.lod))
    && (!MeetsKeySpace(b.minimum.x, b.maximum.x, key.lod) ==> key.x == 0)
    && (!MeetsKeySpace(b.minimum.y, b.maximum.y, key.lod) ==> key.y == 0)
    && (!MeetsKeySpace(b.minimum.z, b.maximum.z, key.lod) ==> key.z == 0)
    && !(MeetsKeySpace(b.minimum.x, b.maximum.x, key.lod) && MeetsKeySpace(b.minimum.y, b.maximum.y, key.lod)
         && MeetsKeySpace(b.minimum.z, b.maximum.z, key.lod))
  }

  lemma AxisWalk(minimum: I64, maximum: I64, lod: U8, k: I32)
    requires lod <= MAXIMUM_LOD && minimum <= maximum
    ensures Extent(lod) > 0
    ensures KeyRange(minimum, maximum, lod).Walked(k)
       <==> (if MeetsKeySpace(minimum, maximum, lod) then AxisMeets(minimum, maximum, k, lod) else k == 0)
    ensures AxisMeets(minimum, maximum, k, lod) ==> MeetsKeySpace(minimum, maximum, lod)
  {
    KeyRangeIsExact(minimum, maximum, lod, k);
    EmptyOnlyOutsideKeySpace(minimum, maximum, lod);
  }

  lemma MeetsByAxis(key: ChunkKey, b: Box3)
    ensures BoundsMeet(b, PaddedBounds(key))
       <==> AxisMeets(b.minimum.x, b.maximum.x, key.x, key.lod)
            && AxisMeets(b.minimum.y, b.maximum.y, key.y, key.lod)
            && AxisMeets(b.minimum.z, b.maximum.z, key.z, key.lod)
  {}

  /** The walk visits exactly the keys whose padded page meets the bounds, and the spurious ones. */
  lemma WalkIsExact(key: ChunkKey, b: Box3)
    requires ValidKey(key) && Bounds64(b) && ValidBounds(b)
    ensures Walked(key, b) <==> MayIntersectPage(key, b) || Spurious(key, b)
    ensures !(MayIntersectPage(key, b) && Spurious(key, b))
  {
    AxisWalk(b.minimum.x, b.maximum.x, key.lod, key.x);
    AxisWalk(b.minimum.y, b.maximum.y, key.lod, key.y);
    AxisWalk(b.minimum.z, b.maximum.z, key.lod, key.z);
    MeetsByAxis(key, b);
  }

  /** Bounds that reach the key space on every axis visit no spurious key. */
  lemma NoSpuriousInsideKeySpace(key: ChunkKey, b: Box3)
    requires MeetsKeySpace(b.minimum.x, b.maximum.x, key.lod)
    requires MeetsKeySpace(b.minimum.y, b.maximum.y, key.lod)
    requires MeetsKeySpace(b.minimum.z, b.maximum.z, key.lod)
    ensures !Spurious(key, b)
  {}

  // ---- Canonical order ----

  predicate KeyLess(a: ChunkKey, b: ChunkKey) {
    if a.lod != b.lod then a.lod < b.lod
    else if a.z != b.z then a.z < b.z
    else if a.y != b.y then a.y < b.y
    else a.x < b.x
  }

  predicate StrictlySorted(keys: seq<ChunkKey>) {
    forall i, j :: 0 <= i < j < |keys| ==> KeyLess(keys[i], keys[j])
  }

  lemma NoMembersMeansEmpty(keys: seq<ChunkKey>)
    ensures keys == [] <==> forall k :: k !in keys
  {
    if keys != [] {
      assert keys[0] in keys;
    }
  }

  /** A strictly sorted listing of a set of keys is unique: results do not depend on hash order. */
  lemma {:induction false} SortedListingIsUnique(a: seq<ChunkKey>, b: seq<ChunkKey>)
    requires StrictlySorted(a) && StrictlySorted(b)
    requires forall k :: k in a <==> k in b
    ensures a == b
    decreases |a|
  {
    if |a| == 0 {
      NoMembersMeansEmpty(b);
    } else {
      assert a[0] in b && b[0] in a;
      var i :| 0 <= i < |b| && b[i] == a[0];
      var j :| 0 <= j < |a| && a[j] == b[0];
      assert i == 0;
      forall k ensures k in a[1..] <==> k in b[1..] {
        assert k in a[1..] <==> k in a && k != a[0];
        assert k in b[1..] <==> k in b && k != b[0];
      }
      SortedListingIsUnique(a[1..], b[1..]);
    }
  }

  function Insert(key: ChunkKey, sorted: seq<ChunkKey>): (r: seq<ChunkKey>)
    requires StrictlySorted(sorted) && key !in sorted
    ensures StrictlySorted(r)
    ensures forall k :: k in r <==> k == key || k in sorted
    ensures |r| == |sorted| + 1
  {
    if |sorted| == 0 || KeyLess(key, sorted[0]) then [key] + sorted
    else
      assert forall k :: k in sorted[1..] ==> k in sorted;
      var rest := Insert(key, sorted[1..]);
      assert forall i :: 0 <= i < |rest| ==> rest[i] in rest;
      assert forall k :: k in sorted <==> k == sorted[0] || k in sorted[1..];
      [sorted[0]] + rest
  }
}
