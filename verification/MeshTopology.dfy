/** Triangles meeting along quantised edges, what a consistent winding is, and when one triangle's winding forces another's. */
module MeshTopology {
  import opened Numbers

  datatype PositionKey = PositionKey(x: I64, y: I64, z: I64)

  predicate Before(a: PositionKey, b: PositionKey) {
    if a.x != b.x then a.x < b.x else if a.y != b.y then a.y < b.y else a.z < b.z
  }

  datatype EdgeKey = EdgeKey(first: PositionKey, second: PositionKey)

  /** An edge named from its lower end, and whether it is walked in that direction. */
  datatype OrientedEdge = OrientedEdge(key: EdgeKey, forward: bool)

  function MakeOrientedEdge(a: PositionKey, b: PositionKey): OrientedEdge {
    if Before(b, a) then OrientedEdge(EdgeKey(b, a), false) else OrientedEdge(EdgeKey(a, b), true)
  }

  datatype Triangle = Triangle(a: nat, b: nat, c: nat)

  function Corner(t: Triangle, i: nat): nat {
    if i % 3 == 0 then t.a else if i % 3 == 1 then t.b else t.c
  }

  datatype Incident = Incident(triangle: nat, forward: bool)

  datatype Mesh = Mesh(keys: seq<PositionKey>, triangles: seq<Triangle>) {

    ghost predicate Valid() {
      forall t :: 0 <= t < |triangles| ==>
        triangles[t].a < |keys| && triangles[t].b < |keys| && triangles[t].c < |keys|
    }

    function Edge(t: nat, e: nat): OrientedEdge
      requires Valid() && t < |triangles|
    {
      MakeOrientedEdge(keys[Corner(triangles[t], e)], keys[Corner(triangles[t], e + 1)])
    }

    /** The incidents of an edge among the first e edges of triangle t. */
    function Own(t: nat, e: nat, key: EdgeKey): seq<Incident>
      requires Valid() && t < |triangles| && e <= 3
    {
      if e == 0 then []
      else
        var edge := Edge(t, e - 1);
        Own(t, e - 1, key) + (if edge.key == key then [Incident(t, edge.forward)] else [])
    }

    /** The incidents of an edge among the first n triangles, in the order they are listed. */
    function Incidents(n: nat, key: EdgeKey): seq<Incident>
      requires Valid() && n <= |triangles|
    {
      if n == 0 then [] else Incidents(n - 1, key) + Own(n - 1, 3, key)
    }

    function At(key: EdgeKey): seq<Incident>
      requires Valid()
    {
      Incidents(|triangles|, key)
    }

    ghost predicate HasEdge(t: nat, e: nat, key: EdgeKey)
      requires Valid() && t < |triangles|
    {
      exists k :: 0 <= k < e && Edge(t, k).key == key
    }

    lemma {:induction false} OwnIsOfTriangle(t: nat, e: nat, key: EdgeKey)
      requires Valid() && t < |triangles| && e <= 3
      ensures forall x :: x in Own(t, e, key) ==> x.triangle == t && HasEdge(t, e, key)
      decreases e
    {
      hide Mesh.Edge;
      if e > 0 {
        OwnIsOfTriangle(t, e - 1, key);
        assert HasEdge(t, e - 1, key) || Edge(t, e - 1).key == key ==> HasEdge(t, e, key);
      }
    }

    lemma {:induction false} OwnHasEdge(t: nat, e: nat, k: nat)
      requires Valid() && t < |triangles| && k < e <= 3
      ensures Incident(t, Edge(t, k).forward) in Own(t, e, Edge(t, k).key)
      decreases e
    {
      hide Mesh.Edge;
      if k < e - 1 {
        OwnHasEdge(t, e - 1, k);
      }
    }

    /** An edge's incidents are exactly the triangle edges with its key. */
    lemma {:induction false} IncidentsAreEdges(n: nat, key: EdgeKey)
      requires Valid() && n <= |triangles|
      ensures forall x :: x in Incidents(n, key) ==> x.triangle < n && HasEdge(x.triangle, 3, key)
      decreases n
    {
      hide Mesh.Edge, Mesh.Own, Mesh.HasEdge;
      if n > 0 {
        IncidentsAreEdges(n - 1, key);
        OwnIsOfTriangle(n - 1, 3, key);
      }
    }

    lemma {:induction false} EdgesAreIncidents(n: nat, t: nat, k: nat)
      requires Valid() && t < n <= |triangles| && k < 3
      ensures Incident(t, Edge(t, k).forward) in Incidents(n, Edge(t, k).key)
      decreases n
    {
      hide Mesh.Edge, Mesh.Own;
      if t < n - 1 {
        EdgesAreIncidents(n - 1, t, k);
      } else {
        OwnHasEdge(t, 3, k);
      }
    }
  }

  lemma IncidentsInRange(mesh: Mesh, key: EdgeKey)
    requires mesh.Valid()
    ensures forall x :: x in mesh.At(key) ==> x.triangle < |mesh.triangles|
  {
    mesh.IncidentsAreEdges(|mesh.triangles|, key);
  }

  lemma IncidentHasEdge(mesh: Mesh, key: EdgeKey, x: Incident) returns (k: nat)
    requires mesh.Valid() && x in mesh.At(key)
    ensures x.triangle < |mesh.triangles| && k < 3 && mesh.Edge(x.triangle, k).key == key
  {
    mesh.IncidentsAreEdges(|mesh.triangles|, key);
    hide Mesh.Edge, Mesh.Incidents;
    assert mesh.HasEdge(x.triangle, 3, key);
    k :| 0 <= k < 3 && mesh.Edge(x.triangle, k).key == key;
  }

  lemma EdgeIsIncident(mesh: Mesh, t: nat, k: nat)
    requires mesh.Valid() && t < |mesh.triangles| && k < 3
    ensures Incident(t, mesh.Edge(t, k).forward) in mesh.At(mesh.Edge(t, k).key)
  {
    mesh.EdgesAreIncidents(|mesh.triangles|, t, k);
  }

  // ---- Shared edges and winding ----

  /** Exactly two triangles meet along the edge. */
  predicate Shared(inc: seq<Incident>) {
    |inc| == 2 && inc[0].triangle != inc[1].triangle
  }

  /** The two triangles, each turned over or not, walk the edge in opposite directions. */
  predicate Opposite(inc: seq<Incident>, flips: seq<bool>)
    requires Shared(inc) && inc[0].triangle < |flips| && inc[1].triangle < |flips|
  {
    (inc[0].forward != flips[inc[0].triangle]) != (inc[1].forward != flips[inc[1].triangle])
  }

  ghost predicate InRange(mesh: Mesh, flips: seq<bool>) {
    mesh.Valid() && |flips| == |mesh.triangles|
  }

  /** Triangles t and u share this edge. */
  predicate Joins(mesh: Mesh, key: EdgeKey, t: nat, u: nat)
    requires mesh.Valid()
  {
    var inc := mesh.At(key);
    Shared(inc) && ((inc[0].triangle == t && inc[1].triangle == u) || (inc[0].triangle == u && inc[1].triangle == t))
  }

  /** Turned alike along the edge: one of the two has to be turned over. */
  predicate SameDirection(mesh: Mesh, key: EdgeKey)
    requires mesh.Valid() && Shared(mesh.At(key))
  {
    mesh.At(key)[0].forward == mesh.At(key)[1].forward
  }

  lemma JoinedAreTriangles(mesh: Mesh, key: EdgeKey, t: nat, u: nat)
    requires mesh.Valid() && Joins(mesh, key, t, u)
    ensures t < |mesh.triangles| && u < |mesh.triangles| && t != u && Joins(mesh, key, u, t)
  {
    IncidentsInRange(mesh, key);
    hide Mesh.At;
    var inc := mesh.At(key);
    assert inc[0] in inc && inc[1] in inc;
  }

  /** No shared edge leads out of the set. */
  ghost predicate Closed(mesh: Mesh, s: set<nat>)
    requires mesh.Valid()
  {
    forall key, t, u :: Joins(mesh, key, t, u) && t in s ==> u in s
  }

  /** Within the set every shared edge is walked once in each direction. */
  ghost predicate Consistent(mesh: Mesh, flips: seq<bool>, s: set<nat>)
    requires InRange(mesh, flips)
  {
    forall key, t, u :: Joins(mesh, key, t, u) && t in s && u in s ==> Relates(mesh, key, flips, t, u)
  }

  /** Opposite traversal, as a rule from one triangle's turn to the other's. */
  predicate Relates(mesh: Mesh, key: EdgeKey, flips: seq<bool>, t: nat, u: nat)
    requires mesh.Valid() && |flips| == |mesh.triangles| && Joins(mesh, key, t, u)
  {
    JoinedAreTriangles(mesh, key, t, u);
    Opposite(mesh.At(key), flips)
  }

  lemma RelatesIsARule(mesh: Mesh, key: EdgeKey, flips: seq<bool>, t: nat, u: nat)
    requires InRange(mesh, flips) && Joins(mesh, key, t, u)
    ensures t < |flips| && u < |flips|
    ensures Relates(mesh, key, flips, t, u) <==> flips[u] == (flips[t] != SameDirection(mesh, key))
  {
    JoinedAreTriangles(mesh, key, t, u);
    hide Mesh.At;
  }

  // ---- Forced windings ----

  /** Whatever consistent winding a closed set holding t has, u is in the set and turned relative to t as it is here. */
  ghost predicate Forced(mesh: Mesh, flips: seq<bool>, t: nat, u: nat)
    requires InRange(mesh, flips) && t < |flips| && u < |flips|
  {
    forall s: set<nat>, g: seq<bool> :: Orients(mesh, g, s) && t in s ==> u in s && (g[t] == g[u] <==> flips[t] == flips[u])
  }

  /** g winds the closed set consistently. */
  ghost predicate Orients(mesh: Mesh, g: seq<bool>, s: set<nat>)
    requires mesh.Valid()
  {
    |g| == |mesh.triangles| && Closed(mesh, s) && Consistent(mesh, g, s)
  }

  /** u is in every closed set that holds t: the two are connected through shared edges. */
  ghost predicate Connected(mesh: Mesh, t: nat, u: nat)
    requires mesh.Valid()
  {
    forall s: set<nat> :: Closed(mesh, s) && t in s ==> u in s
  }

  lemma ForcedAcross(mesh: Mesh, flips: seq<bool>, root: nat, t: nat, u: nat, key: EdgeKey)
    requires InRange(mesh, flips) && root < |flips| && t < |flips| && u < |flips| && Joins(mesh, key, t, u)
    requires Forced(mesh, flips, root, t) && Connected(mesh, root, t)
    requires flips[u] == (flips[t] != SameDirection(mesh, key))
    ensures Forced(mesh, flips, root, u) && Connected(mesh, root, u)
  {
    forall s: set<nat>, g: seq<bool> | Orients(mesh, g, s) && root in s
      ensures u in s && (g[root] == g[u] <==> flips[root] == flips[u])
    {
      assert t in s && u in s;
      RelatesIsARule(mesh, key, g, t, u);
    }
  }

  lemma ForcedTogether(mesh: Mesh, flips: seq<bool>, root: nat, t: nat, u: nat)
    requires InRange(mesh, flips) && root < |flips| && t < |flips| && u < |flips|
    requires Forced(mesh, flips, root, t) && Forced(mesh, flips, root, u)
    ensures forall s: set<nat>, g: seq<bool> :: Orients(mesh, g, s) && root in s ==>
      (g[t] == g[u] <==> flips[t] == flips[u])
  {}

  /** Turning over a set of triangles that holds both t and u, or neither, changes nothing between them. */
  lemma TurningTogetherKeepsForced(mesh: Mesh, a: seq<bool>, b: seq<bool>, t: nat, u: nat)
    requires InRange(mesh, a) && |b| == |a| && t < |a| && u < |a| && Forced(mesh, a, t, u)
    requires a[t] == a[u] <==> b[t] == b[u]
    ensures Forced(mesh, b, t, u)
  {}

  // ---- What the whole pass promises ----

  /** The components: each closed, connected, and all triangles in exactly one of them. */
  ghost predicate IsComponent(mesh: Mesh, c: seq<nat>)
    requires mesh.Valid()
  {
    && |c| > 0 && (forall k :: 0 <= k < |c| ==> c[k] < |mesh.triangles| && Connected(mesh, c[0], c[k]))
    && (forall j, k :: 0 <= j < k < |c| ==> c[j] != c[k])
    && Closed(mesh, set t | t in c)
  }

  ghost predicate Wound(mesh: Mesh, flips: seq<bool>, c: seq<nat>)
    requires InRange(mesh, flips) && IsComponent(mesh, c)
  {
    forall k :: 0 <= k < |c| ==> Forced(mesh, flips, c[0], c[k])
  }

  ghost predicate Covered(components: seq<seq<nat>>, t: nat) {
    exists c :: c in components && t in c
  }

  ghost predicate Partition(n: nat, components: seq<seq<nat>>) {
    && (forall t :: 0 <= t < n ==> Covered(components, t))
    && (forall i, j, t :: 0 <= i < j < |components| && t in components[i] ==> t !in components[j])
  }

  /** If every component is wound as its edges force it, then any closed set of triangles that can be wound consistently
      has been: the pass finds a consistent winding exactly where there is one. */
  lemma WoundMeansConsistent(mesh: Mesh, flips: seq<bool>, components: seq<seq<nat>>, s: set<nat>)
    requires InRange(mesh, flips) && Closed(mesh, s) && Partition(|flips|, components)
    requires forall c :: c in components ==> IsComponent(mesh, c) && Wound(mesh, flips, c)
    ensures Consistent(mesh, flips, s) <==> exists g: seq<bool> :: Orients(mesh, g, s)
  {
    if Consistent(mesh, flips, s) {
      assert Orients(mesh, flips, s);
    }
    if g: seq<bool> :| Orients(mesh, g, s) {
      forall key, t, u | Joins(mesh, key, t, u) && t in s && u in s ensures Relates(mesh, key, flips, t, u) {
        JoinedAreTriangles(mesh, key, t, u);
        assert Covered(components, t);
        var c :| c in components && t in c;
        var j :| 0 <= j < |c| && c[j] == t;
        assert u in (set x | x in c);
        var k :| 0 <= k < |c| && c[k] == u;
        RootIsIn(mesh, c, s, j);
        ForcedTogether(mesh, flips, c[0], c[j], c[k]);
        RelatesIsARule(mesh, key, g, t, u);
        RelatesIsARule(mesh, key, flips, t, u);
      }
    }
  }

  /** A closed set that meets a component holds its first triangle. */
  lemma RootIsIn(mesh: Mesh, c: seq<nat>, s: set<nat>, j: nat)
    requires mesh.Valid() && IsComponent(mesh, c) && Closed(mesh, s) && j < |c| && c[j] in s
    ensures c[0] in s
  {
    var all := set t | t in c;
    var rest := all - s;
    forall key, t, u | Joins(mesh, key, t, u) && t in rest ensures u in rest {
      JoinedAreTriangles(mesh, key, t, u);
    }
    assert Closed(mesh, rest);
    assert Connected(mesh, c[0], c[j]);
  }

  // ---- The triangles as written out ----

  function Written(t: Triangle, flip: bool): Triangle {
    if flip then Triangle(t.a, t.c, t.b) else t
  }

  function WrittenMesh(mesh: Mesh, flips: seq<bool>): Mesh
    requires |flips| == |mesh.triangles|
  {
    Mesh(mesh.keys, seq(|flips|, t requires 0 <= t < |flips| => Written(mesh.triangles[t], flips[t])))
  }

  lemma BeforeIsTotal(a: PositionKey, b: PositionKey)
    ensures a != b ==> (Before(a, b) <==> !Before(b, a))
    ensures MakeOrientedEdge(a, b).key == MakeOrientedEdge(b, a).key
    ensures a != b ==> MakeOrientedEdge(a, b).forward != MakeOrientedEdge(b, a).forward
  {}

  /** Writing a triangle turned over keeps its edges and walks each the other way. */
  lemma OwnEdgesTurn(mesh: Mesh, flips: seq<bool>, t: nat, key: EdgeKey)
    requires InRange(mesh, flips) && t < |flips| && key.first != key.second
    ensures WrittenMesh(mesh, flips).Valid()
    ensures
      var own, written := mesh.Own(t, 3, key), WrittenMesh(mesh, flips).Own(t, 3, key);
      |written| == |own| && (|own| == 1 ==> written == [Incident(t, own[0].forward != flips[t])])
      && forall x :: x in written || x in own ==> x.triangle == t
  {
    hide MakeOrientedEdge, Mesh.Own, ThreeEdges;
    var w, tri := WrittenMesh(mesh, flips), mesh.triangles[t];
    var a, b, c := mesh.keys[tri.a], mesh.keys[tri.b], mesh.keys[tri.c];
    EdgesOfTriangle(mesh, t, key);
    EdgesOfTriangle(w, t, key);
    ReversedEdge(a, b, key);
    ReversedEdge(b, c, key);
    ReversedEdge(c, a, key);
    assert w.triangles[t] == Written(tri, flips[t]);
    ThreeEdgesTurn(t, MakeOrientedEdge(a, b), MakeOrientedEdge(b, c), MakeOrientedEdge(c, a),
                   MakeOrientedEdge(b, a), MakeOrientedEdge(c, b), MakeOrientedEdge(a, c), key);
  }

  /** The other direction, as far as edges with this key go. */
  predicate Reverses(edge: OrientedEdge, other: OrientedEdge, key: EdgeKey) {
    other.key == edge.key && (edge.key == key ==> other.forward != edge.forward)
  }

  lemma ReversedEdge(a: PositionKey, b: PositionKey, key: EdgeKey)
    requires key.first != key.second
    ensures Reverses(MakeOrientedEdge(a, b), MakeOrientedEdge(b, a), key)
  {
    BeforeIsTotal(a, b);
  }

  function ThreeEdges(t: nat, x: OrientedEdge, y: OrientedEdge, z: OrientedEdge, key: EdgeKey): seq<Incident> {
    OneEdge(t, x, key) + OneEdge(t, y, key) + OneEdge(t, z, key)
  }

  lemma ThreeEdgesTurn(t: nat, x: OrientedEdge, y: OrientedEdge, z: OrientedEdge,
                       rx: OrientedEdge, ry: OrientedEdge, rz: OrientedEdge, key: EdgeKey)
    requires Reverses(x, rx, key) && Reverses(y, ry, key) && Reverses(z, rz, key)
    ensures
      var own, turned := ThreeEdges(t, x, y, z, key), ThreeEdges(t, rz, ry, rx, key);
      && |turned| == |own| && (|own| == 1 ==> own[0].triangle == t && turned == [Incident(t, !own[0].forward)])
      && (forall i :: i in own || i in turned ==> i.triangle == t)
  {
    OneOfThree(OneEdge(t, x, key), OneEdge(t, y, key), OneEdge(t, z, key));
    OneOfThree(OneEdge(t, rz, key), OneEdge(t, ry, key), OneEdge(t, rx, key));
  }

  lemma OneOfThree(a: seq<Incident>, b: seq<Incident>, c: seq<Incident>)
    ensures |a + b + c| == |a| + |b| + |c|
    ensures |b| == 0 && |c| == 0 ==> a + b + c == a
    ensures |a| == 0 && |c| == 0 ==> a + b + c == b
    ensures |a| == 0 && |b| == 0 ==> a + b + c == c
    ensures forall i :: i in a + b + c <==> i in a || i in b || i in c
  {}

  function OneEdge(t: nat, edge: OrientedEdge, key: EdgeKey): seq<Incident> {
    if edge.key == key then [Incident(t, edge.forward)] else []
  }

  lemma EdgesOfTriangle(mesh: Mesh, t: nat, key: EdgeKey)
    requires mesh.Valid() && t < |mesh.triangles|
    ensures
      var tri := mesh.triangles[t];
      mesh.Own(t, 3, key)
      == ThreeEdges(t, MakeOrientedEdge(mesh.keys[tri.a], mesh.keys[tri.b]),
                    MakeOrientedEdge(mesh.keys[tri.b], mesh.keys[tri.c]),
                    MakeOrientedEdge(mesh.keys[tri.c], mesh.keys[tri.a]), key)
  {
    hide MakeOrientedEdge;
    assert mesh.Own(t, 1, key) == [] + OneEdge(t, mesh.Edge(t, 0), key);
    assert mesh.Own(t, 2, key) == mesh.Own(t, 1, key) + OneEdge(t, mesh.Edge(t, 1), key);
  }

  /** Each incident stays with its triangle, walked the other way if that was turned over. */
  predicate TurnedIncidents(inc: seq<Incident>, written: seq<Incident>, flips: seq<bool>) {
    |written| == |inc| && forall i :: 0 <= i < |inc| ==>
      inc[i].triangle < |flips| && written[i] == Incident(inc[i].triangle, inc[i].forward != flips[inc[i].triangle])
  }

  lemma AppendTurned(before: seq<Incident>, own: seq<Incident>, writtenBefore: seq<Incident>, writtenOwn: seq<Incident>,
                     t: nat, flips: seq<bool>)
    requires |writtenBefore| == |before| && |writtenOwn| == |own| && t < |flips|
    requires |before| <= 1 || Shared(before) ==> TurnedIncidents(before, writtenBefore, flips)
    requires |own| == 1 ==> own[0].triangle == t && writtenOwn == [Incident(t, own[0].forward != flips[t])]
    requires forall k :: 0 <= k < |own| ==> own[k].triangle == t
    ensures |before + own| <= 1 || Shared(before + own) ==> TurnedIncidents(before + own, writtenBefore + writtenOwn, flips)
  {
    var all := before + own;
    if |all| <= 1 || Shared(all) {
      if |own| == 0 {
        assert all == before && writtenBefore + writtenOwn == writtenBefore;
      } else if |before| == 0 {
        assert all == own && writtenBefore + writtenOwn == writtenOwn;
      }
    }
  }

  lemma {:induction false} IncidentsTurn(mesh: Mesh, flips: seq<bool>, n: nat, key: EdgeKey)
    requires InRange(mesh, flips) && n <= |flips| && key.first != key.second && WrittenMesh(mesh, flips).Valid()
    ensures
      var inc, written := mesh.Incidents(n, key), WrittenMesh(mesh, flips).Incidents(n, key);
      |written| == |inc| && (|inc| <= 1 || Shared(inc) ==> TurnedIncidents(inc, written, flips))
      && (forall x :: x in inc ==> x.triangle < n)
    decreases n
  {
    hide Mesh.Own;
    if n > 0 {
      IncidentsTurn(mesh, flips, n - 1, key);
      OwnEdgesTurn(mesh, flips, n - 1, key);
      var w := WrittenMesh(mesh, flips);
      var own := mesh.Own(n - 1, 3, key);
      forall k | 0 <= k < |own| ensures own[k].triangle == n - 1 {
        assert own[k] in own;
      }
      AppendTurned(mesh.Incidents(n - 1, key), own, w.Incidents(n - 1, key), w.Own(n - 1, 3, key), n - 1, flips);
      hide TurnedIncidents, Shared;
    }
  }

  /** In the triangles as written out, an edge shared by two of them is walked once in each direction exactly when the
      turns are opposite there: a consistent winding is consistent in the output itself. */
  lemma WrittenEdgesAreOpposite(mesh: Mesh, flips: seq<bool>, key: EdgeKey)
    requires InRange(mesh, flips) && key.first != key.second && Shared(mesh.At(key))
    ensures WrittenMesh(mesh, flips).Valid() && Shared(WrittenMesh(mesh, flips).At(key))
    ensures
      var inc, written := mesh.At(key), WrittenMesh(mesh, flips).At(key);
      && inc[0].triangle < |flips| && inc[1].triangle < |flips|
      && (Opposite(inc, flips) <==> written[0].forward != written[1].forward)
  {
    assert WrittenMesh(mesh, flips).Valid();
    IncidentsTurn(mesh, flips, |flips|, key);
    hide Mesh.Incidents;
  }
}
