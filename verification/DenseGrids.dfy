/** The in-memory grid of samples: which points it holds, where each lies, and when it accepts its data. */
module DenseGrids {
  import opened Numbers
  import opened Floats
  import opened ChunkKeys

  datatype Descriptor = Descriptor(origin: GridPoint, dimX: U32, dimY: U32, dimZ: U32, spacing: U64, defaultMaterial: U16)

  datatype GridSample = GridSample(density: Float, material: U16)

  predicate ValidDescriptor(d: Descriptor) {
    d.dimX > 0 && d.dimY > 0 && d.dimZ > 0 && 0 < d.spacing <= I64_MAX
  }

  // ---- Points and indices ----

  function AxisIndex(point: int, origin: int, spacing: U64, dimension: U32): Option<nat>
    requires spacing > 0
  {
    var delta := point - origin;
    if delta < 0 || delta % spacing != 0 then None
    else if delta / spacing >= dimension then None
    else Some(delta / spacing)
  }

  /** An axis coordinate has an index exactly when it lies on the lattice within the dimension, and then that one. */
  lemma AxisIndexIsExact(point: int, origin: int, spacing: U64, dimension: U32, i: nat)
    requires spacing > 0
    ensures AxisIndex(point, origin, spacing, dimension) == Some(i) <==> i < dimension && point == origin + i * spacing
  {
    var delta := point - origin;
    if delta >= 0 {
      QuotientBounds(delta, spacing);
      assert delta == delta / spacing * spacing + delta % spacing;
    }
    if delta == i * spacing {
      MultiplesKeepOrder(i, delta / spacing, spacing);
      MultiplesKeepOrder(delta / spacing, i, spacing);
      QuotientBounds(delta, spacing);
      assert (delta / spacing + 1) * spacing == delta / spacing * spacing + spacing;
      MultiplesKeepOrder(i, delta / spacing + 1, spacing);
    }
  }

  function SampleCount(d: Descriptor): nat {
    d.dimX * d.dimY * d.dimZ
  }

  datatype Place = Place(x: nat, y: nat, z: nat)

  predicate InGrid(d: Descriptor, p: Place) {
    p.x < d.dimX && p.y < d.dimY && p.z < d.dimZ
  }

  function PlaceOf(d: Descriptor, point: GridPoint): Option<Place>
    requires d.spacing > 0
  {
    var x := AxisIndex(point.x, d.origin.x, d.spacing, d.dimX);
    var y := AxisIndex(point.y, d.origin.y, d.spacing, d.dimY);
    var z := AxisIndex(point.z, d.origin.z, d.spacing, d.dimZ);
    if x.None? || y.None? || z.None? then None else Some(Place(x.value, y.value, z.value))
  }

  function Row(d: Descriptor, p: Place): nat {
    p.z * d.dimY + p.y
  }

  function RowCount(d: Descriptor): nat {
    d.dimY * d.dimZ
  }

  function IndexOf(d: Descriptor, p: Place): nat {
    Row(d, p) * d.dimX + p.x
  }

  /** A digit below the base on top of a smaller number of bases stays below the product. */
  lemma DigitsFit(high: nat, low: nat, base: nat, count: nat)
    requires high < count && low < base
    ensures high * base + low < count * base
  {
    assert (high + 1) * base == high * base + base;
    if high + 1 < count {
      MultiplesKeepOrder(high + 1, count, base);
    }
  }

  lemma DigitsAreUnique(high: nat, low: nat, otherHigh: nat, otherLow: nat, base: nat)
    requires low < base && otherLow < base && high * base + low == otherHigh * base + otherLow
    ensures high == otherHigh && low == otherLow
  {
    if high < otherHigh {
      DigitsFit(high, low, base, otherHigh);
    } else if otherHigh < high {
      DigitsFit(otherHigh, otherLow, base, high);
    }
  }

  /** Places of the grid have indices below the sample count, and no two share one. */
  lemma IndicesAreExact(d: Descriptor, p: Place, q: Place)
    requires InGrid(d, p) && InGrid(d, q)
    ensures Row(d, p) < RowCount(d) && IndexOf(d, p) < SampleCount(d)
    ensures IndexOf(d, p) == IndexOf(d, q) <==> p == q
  {
    DigitsFit(p.z, p.y, d.dimY, d.dimZ);
    DigitsFit(Row(d, p), p.x, d.dimX, RowCount(d));
    CountByRows(d);
    assert d.dimZ * d.dimY == RowCount(d);
    if IndexOf(d, p) == IndexOf(d, q) {
      DigitsAreUnique(Row(d, p), p.x, Row(d, q), q.x, d.dimX);
      DigitsAreUnique(p.z, p.y, q.z, q.y, d.dimY);
    }
  }

  lemma CountByRows(d: Descriptor)
    ensures RowCount(d) * d.dimX == SampleCount(d)
  {
    assert d.dimX * d.dimY * d.dimZ == d.dimX * (d.dimY * d.dimZ);
  }

  function LatticePoint(d: Descriptor, p: Place): GridPoint {
    GridPoint(d.origin.x + p.x * d.spacing, d.origin.y + p.y * d.spacing, d.origin.z + p.z * d.spacing)
  }

  /** A world point is at a place of the grid exactly when it is that place's lattice point. */
  lemma PlacesAreExact(d: Descriptor, point: GridPoint, p: Place)
    requires d.spacing > 0
    ensures PlaceOf(d, point) == Some(p) <==> InGrid(d, p) && point == LatticePoint(d, p)
  {
    AxisIndexIsExact(point.x, d.origin.x, d.spacing, d.dimX, p.x);
    AxisIndexIsExact(point.y, d.origin.y, d.spacing, d.dimY, p.y);
    AxisIndexIsExact(point.z, d.origin.z, d.spacing, d.dimZ, p.z);
  }

  // ---- Accepting data ----

  function MultiplyFits(left: nat, right: nat, maximum: nat): Option<nat> {
    if left != 0 && right > maximum / left then None else Some(left * right)
  }

  /** The division test accepts exactly the products that fit. */
  lemma ProductFits(left: nat, right: nat, maximum: nat)
    ensures MultiplyFits(left, right, maximum).Some? <==> left * right <= maximum
  {
    if left != 0 {
      QuotientBounds(maximum, left);
      var q := maximum / left;
      assert (q + 1) * left == q * left + left;
      MultiplesKeepOrder(right, q + 1, left);
      MultiplesKeepOrder(q, right, left);
      assert left * right == right * left;
    }
  }

  datatype GridStatus = Ok | InvalidInput | SampleCapacityExceeded | NonFiniteDensity

  /** What initialising promises, in terms of the number of samples itself. */
  ghost function StatusFor(capacity: nat, d: Descriptor, densities: seq<Float>, materials: seq<U16>): GridStatus {
    if !ValidDescriptor(d) then InvalidInput
    else if SampleCount(d) > capacity then SampleCapacityExceeded
    else if |densities| != SampleCount(d) || (materials != [] && |materials| != SampleCount(d)) then InvalidInput
    else if exists k :: 0 <= k < |densities| && !IsFinite(densities[k]) then NonFiniteDensity
    else Ok
  }

  /** Data is accepted exactly when the grid has an extent, its samples are given in the right number within the capacity,
      all densities are finite, and there are as many materials or none; a reason for refusing it is true. */
  lemma GridIsAcceptedExactly(capacity: nat, d: Descriptor, densities: seq<Float>, materials: seq<U16>)
    ensures
      var n := d.dimX * d.dimY * d.dimZ;
      var extent := d.dimX >= 1 && d.dimY >= 1 && d.dimZ >= 1 && 1 <= d.spacing <= I64_MAX;
      var finite := forall k :: 0 <= k < |densities| ==> IsFinite(densities[k]);
      var status := StatusFor(capacity, d, densities, materials);
      && (status == Ok <==> extent && n <= capacity && |densities| == n && (|materials| == 0 || |materials| == n) && finite)
      && (status == SampleCapacityExceeded <==> extent && n > capacity)
      && (status == NonFiniteDensity ==> !finite)
      && (status == InvalidInput ==> !extent || |densities| != n || (|materials| != 0 && |materials| != n))
  {}

  predicate HoldsGrid(d: Descriptor, densities: seq<Float>, materials: seq<U16>) {
    ValidDescriptor(d) && |densities| == SampleCount(d) && (materials == [] || |materials| == SampleCount(d))
  }

  /** The sample at a world point, if the grid has one there. */
  function GridSampleAt(d: Descriptor, densities: seq<Float>, materials: seq<U16>, point: GridPoint): Option<GridSample>
    requires HoldsGrid(d, densities, materials)
  {
    var p := PlaceOf(d, point);
    if p.None? then None
    else
      IndicesAreExact(d, p.value, p.value);
      var i := IndexOf(d, p.value);
      Some(GridSample(densities[i], if materials == [] then d.defaultMaterial else materials[i]))
  }

  /** The layout by its steps: the origin comes first, x runs fastest, then y, then z. */
  lemma IndexSteps(d: Descriptor, p: Place)
    ensures IndexOf(d, Place(0, 0, 0)) == 0
    ensures IndexOf(d, p.(x := p.x + 1)) == IndexOf(d, p) + 1
    ensures IndexOf(d, p.(y := p.y + 1)) == IndexOf(d, p) + d.dimX
    ensures IndexOf(d, p.(z := p.z + 1)) == IndexOf(d, p) + d.dimX * d.dimY
  {
    OneMoreRow(Row(d, p), 1, d.dimX);
    assert (p.z + 1) * d.dimY == p.z * d.dimY + d.dimY;
    OneMoreRow(Row(d, p), d.dimY, d.dimX);
    assert d.dimY * d.dimX == d.dimX * d.dimY;
  }

  lemma OneMoreRow(row: nat, more: nat, columns: nat)
    ensures (row + more) * columns == row * columns + more * columns
  {}

  /** Samples before a place: whole layers of dimX * dimY, whole lines of dimX, then along x. */
  function SamplesBefore(d: Descriptor, p: Place): nat {
    p.z * (d.dimX * d.dimY) + p.y * d.dimX + p.x
  }

  lemma IndexCountsSamplesBefore(d: Descriptor, p: Place)
    ensures IndexOf(d, p) == SamplesBefore(d, p)
  {
    OneMoreRow(p.z * d.dimY, p.y, d.dimX);
    assert p.z * d.dimY * d.dimX == p.z * (d.dimX * d.dimY);
  }

  /** What is read at a lattice point: the density and the material stored after all samples before it. */
  lemma SamplesLieByRows(d: Descriptor, densities: seq<Float>, materials: seq<U16>, p: Place)
    requires HoldsGrid(d, densities, materials) && InGrid(d, p)
    ensures SamplesBefore(d, p) < |densities| && (materials != [] ==> SamplesBefore(d, p) < |materials|)
    ensures GridSampleAt(d, densities, materials, LatticePoint(d, p))
         == Some(GridSample(densities[SamplesBefore(d, p)],
                            if materials != [] then materials[SamplesBefore(d, p)] else d.defaultMaterial))
  {
    PlacesAreExact(d, LatticePoint(d, p), p);
    IndicesAreExact(d, p, p);
    IndexCountsSamplesBefore(d, p);
    hide PlaceOf, LatticePoint, SampleCount, SamplesBefore, IndexOf, Row;
  }

  class DenseGridSource {
    const sampleCapacity: nat
    var initialized: bool
    var descriptor: Descriptor
    var densities: seq<Float>
    var materials: seq<U16>

    ghost predicate Valid()
      reads this
    {
      initialized ==> HoldsGrid(descriptor, densities, materials)
    }

    constructor (sampleCapacity: nat)
      ensures Valid() && !initialized && this.sampleCapacity == sampleCapacity
    {
      this.sampleCapacity := sampleCapacity;
      initialized, descriptor, densities, materials := false, Descriptor(GridPoint(0, 0, 0), 0, 0, 0, 1, 0), [], [];
    }

    method Initialize(d: Descriptor, densities: seq<Float>, materials: seq<U16>) returns (status: GridStatus)
      modifies this
      ensures Valid() && status == StatusFor(sampleCapacity, d, densities, materials) && (initialized <==> status == Ok)
      ensures initialized ==> descriptor == d && this.densities == densities && this.materials == materials
    {
      initialized, descriptor := false, Descriptor(GridPoint(0, 0, 0), 0, 0, 0, 1, 0);
      this.densities, this.materials := [], [];
      if d.dimX == 0 || d.dimY == 0 || d.dimZ == 0 || d.spacing == 0 || d.spacing > I64_MAX { return InvalidInput; }
      ProductFits(d.dimX, d.dimY, sampleCapacity);
      PlaneFits(d, sampleCapacity);
      var plane := MultiplyFits(d.dimX, d.dimY, sampleCapacity);
      if plane.None? { return SampleCapacityExceeded; }
      ProductFits(plane.value, d.dimZ, sampleCapacity);
      var count := MultiplyFits(plane.value, d.dimZ, sampleCapacity);
      if count.None? || count.value > sampleCapacity { return SampleCapacityExceeded; }
      if |densities| != count.value || (materials != [] && |materials| != count.value) { return InvalidInput; }
      for k := 0 to |densities|
        invariant forall j :: 0 <= j < k ==> IsFinite(densities[j])
        invariant !initialized
      {
        if !IsFinite(densities[k]) { return NonFiniteDensity; }
      }
      descriptor, this.densities, this.materials, initialized := d, densities, materials, true;
      return Ok;
    }

    function Sample(point: GridPoint): Option<GridSample>
      requires Valid()
      reads this
    {
      if !initialized then None else GridSampleAt(descriptor, densities, materials, point)
    }
  }

  lemma PlaneFits(d: Descriptor, maximum: nat)
    requires ValidDescriptor(d)
    ensures SampleCount(d) <= maximum ==> d.dimX * d.dimY <= maximum
  {
    AtLeastOneLayer(d.dimX * d.dimY, d.dimZ);
  }

  lemma AtLeastOneLayer(plane: nat, layers: nat)
    requires layers > 0
    ensures plane * layers >= plane
  {
    assert plane * layers == plane + plane * (layers - 1);
  }
}
