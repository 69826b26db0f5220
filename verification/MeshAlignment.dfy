/** How far a triangle faces along the normals of its corners, in exact arithmetic. */
module MeshAlignment {
  import opened MeshTopology
  import opened MeshFinalize

  datatype Vector = Vector(x: real, y: real, z: real)

  datatype Corner = Corner(position: Vector, normal: Vector)

  function Minus(a: Vector, b: Vector): Vector { Vector(a.x - b.x, a.y - b.y, a.z - b.z) }

  function Cross(a: Vector, b: Vector): Vector {
    Vector(a.y * b.z - a.z * b.y, a.z * b.x - a.x * b.z, a.x * b.y - a.y * b.x)
  }

  function Dot(a: Vector, b: Vector): real { a.x * b.x + a.y * b.y + a.z * b.z }

  function NormalSum(a: Corner, b: Corner, c: Corner): Vector {
    Vector(a.normal.x + b.normal.x + c.normal.x, a.normal.y + b.normal.y + c.normal.y, a.normal.z + b.normal.z + c.normal.z)
  }

  /** Zero without an area or without a normal; otherwise the summed normals along the side the corners go round. */
  function NormalAlignment(a: Corner, b: Corner, c: Corner): real {
    var side := Cross(Minus(b.position, a.position), Minus(c.position, a.position));
    var normal := NormalSum(a, b, c);
    if Dot(side, side) == 0.0 || Dot(normal, normal) == 0.0 then 0.0 else Dot(side, normal)
  }

  lemma CrossTurnsRound(a: Vector, b: Vector)
    ensures Cross(b, a) == Vector(-Cross(a, b).x, -Cross(a, b).y, -Cross(a, b).z)
  {}

  lemma DotTurnsRound(a: Vector, n: Vector)
    ensures Dot(Vector(-a.x, -a.y, -a.z), n) == -Dot(a, n)
    ensures Dot(Vector(-a.x, -a.y, -a.z), Vector(-a.x, -a.y, -a.z)) == Dot(a, a)
  {}

  /** Exchanging two corners turns the alignment round. */
  lemma TurningOverTurnsRound(a: Corner, b: Corner, c: Corner)
    ensures NormalAlignment(a, c, b) == -NormalAlignment(a, b, c)
  {
    var ab, ac := Minus(b.position, a.position), Minus(c.position, a.position);
    CrossTurnsRound(ab, ac);
    DotTurnsRound(Cross(ab, ac), NormalSum(a, b, c));
    hide Cross, Dot, Minus;
  }

  /** A triangle of the ground plane with upright normals faces outward exactly when its corners go round to the left. */
  lemma UprightTriangle(a0: real, a1: real, b0: real, b1: real, c0: real, c1: real, n: real)
    requires n > 0.0
    ensures
      var up := Vector(0.0, 0.0, n);
      var a, b, c := Corner(Vector(a0, a1, 0.0), up), Corner(Vector(b0, b1, 0.0), up), Corner(Vector(c0, c1, 0.0), up);
      NormalAlignment(a, b, c) == 3.0 * n * ((b0 - a0) * (c1 - a1) - (b1 - a1) * (c0 - a0))
  {
    var side, normal := (b0 - a0) * (c1 - a1) - (b1 - a1) * (c0 - a0), 3.0 * n;
    ProductVanishes(side, side);
    ProductVanishes(normal, normal);
    assert normal * side == side * normal;
  }

  lemma ProductVanishes(x: real, y: real)
    ensures x * y == 0.0 <==> x == 0.0 || y == 0.0
  {}

  /** The alignment of a mesh whose vertices carry these corners. */
  function CornersOf(corner: Vertex -> Corner): (Vertex, Vertex, Vertex) -> real {
    (a, b, c) => NormalAlignment(corner(a), corner(b), corner(c))
  }

  /** Whatever positions and normals the vertices carry: no component of a finished mesh clearly faces inward. */
  lemma FinishedComponentsFaceOutward(vertices: seq<Vertex>, corner: Vertex -> Corner, mesh: Mesh, flips: seq<bool>,
                                      components: seq<seq<nat>>, c: seq<nat>)
    requires Settled(mesh, AlignmentOf(vertices, CornersOf(corner)), flips, components) && c in components
    ensures Within(c, |WrittenMesh(mesh, flips).triangles|)
    ensures Total(AlignmentOf(vertices, CornersOf(corner)), WrittenMesh(mesh, flips).triangles, c) >= -MINIMUM_ALIGNMENT
  {
    forall a, b, d ensures CornersOf(corner)(a, d, b) == -CornersOf(corner)(a, b, d) {
      TurningOverTurnsRound(corner(a), corner(b), corner(d));
    }
    CornersTurnRound(vertices, CornersOf(corner));
    hide NormalAlignment, Total, IsComponent, Wound, AlignmentOf;
    assert SettledOne(mesh, AlignmentOf(vertices, CornersOf(corner)), flips, c);
  }
}
