/** Finalising a mesh: edges are collected, components wound and turned outward, unused vertices dropped. */
module MeshFinalize {
  import opened MeshTopology

  // ---- Collecting edges ----

  function Found(edges: map<EdgeKey, seq<Incident>>, key: EdgeKey): seq<Incident> {
    if key in edges then edges[key] else []
  }

  lemma AddingAnIncident(mesh: Mesh, before: map<EdgeKey, seq<Incident>>, t: nat, e: nat, key: EdgeKey)
    requires mesh.Valid() && t < |mesh.triangles| && e < 3
    requires Found(before, key) == mesh.Incidents(t, key) + mesh.Own(t, e, key)
    ensures
      var edge := mesh.Edge(t, e);
      Found(before, key) + (if edge.key == key then [Incident(t, edge.forward)] else [])
      == mesh.Incidents(t, key) + mesh.Own(t, e + 1, key)
  {
    hide Found, Mesh.Incidents, Mesh.Edge;
    var edge := mesh.Edge(t, e);
    assert mesh.Own(t, e + 1, key) == mesh.Own(t, e, key) + (if edge.key == key then [Incident(t, edge.forward)] else []);
  }

  method CollectTriangle(mesh: Mesh, t: nat, before: map<EdgeKey, seq<Incident>>) returns (edges: map<EdgeKey, seq<Incident>>)
    requires mesh.Valid() && t < |mesh.triangles|
    requires forall key :: Found(before, key) == mesh.Incidents(t, key)
    ensures forall key :: Found(edges, key) == mesh.Incidents(t + 1, key)
  {
    hide Mesh.Incidents, Mesh.Own, Mesh.Edge;
    edges := before;
    forall key ensures mesh.Own(t, 0, key) == [] {
      NothingOwned(mesh, t, key);
    }
    for e := 0 to 3
      invariant forall key :: Found(edges, key) == mesh.Incidents(t, key) + mesh.Own(t, e, key)
    {
      ghost var earlier := edges;
      var edge := mesh.Edge(t, e);
      edges := edges[edge.key := Found(edges, edge.key) + [Incident(t, edge.forward)]];
      forall key ensures Found(edges, key) == mesh.Incidents(t, key) + mesh.Own(t, e + 1, key) {
        AddingAnIncident(mesh, earlier, t, e, key);
      }
    }
    forall key ensures Found(edges, key) == mesh.Incidents(t + 1, key) {
      NextIncidents(mesh, t, key);
    }
  }

  lemma NothingOwned(mesh: Mesh, t: nat, key: EdgeKey)
    requires mesh.Valid() && t < |mesh.triangles|
    ensures mesh.Own(t, 0, key) == []
  {}

  lemma NextIncidents(mesh: Mesh, t: nat, key: EdgeKey)
    requires mesh.Valid() && t < |mesh.triangles|
    ensures mesh.Incidents(t + 1, key) == mesh.Incidents(t, key) + mesh.Own(t, 3, key)
  {}

  /** The map lists exactly the edges that have incidents, each with all of them in order. */
  method CollectEdges(mesh: Mesh) returns (edges: map<EdgeKey, seq<Incident>>)
    requires mesh.Valid()
    ensures forall key :: Found(edges, key) == mesh.At(key)
  {
    hide Found, Mesh.Own;
    edges := map[];
    forall key ensures Found(edges, key) == mesh.Incidents(0, key) {
      NothingFound(mesh, key);
    }
    for t := 0 to |mesh.triangles|
      invariant forall key :: Found(edges, key) == mesh.Incidents(t, key)
    {
      edges := CollectTriangle(mesh, t, edges);
    }
  }

  lemma NothingFound(mesh: Mesh, key: EdgeKey)
    requires mesh.Valid()
    ensures Found(map[], key) == mesh.Incidents(0, key)
  {}

  // ---- Outward alignment ----

  const MINIMUM_ALIGNMENT := 0.000000001

  ghost predicate Within(component: seq<nat>, n: nat) {
    forall k :: 0 <= k < |component| ==> component[k] < n
  }

  /** What the listed triangles, as they are given, add up to. */
  ghost function Total(alignment: Triangle -> real, ts: seq<Triangle>, component: seq<nat>): real
    requires Within(component, |ts|)
  {
    if |component| == 0 then 0.0
    else
      Total(alignment, ts, component[..|component| - 1]) + alignment(ts[component[|component| - 1]])
  }

  /** Turning a triangle over turns its alignment round. */
  ghost predicate Antisymmetric(alignment: Triangle -> real) {
    forall t: Triangle :: alignment(Triangle(t.a, t.c, t.b)) == -alignment(t)
  }

  function Absolute(x: real): real { if x < 0.0 then -x else x }

  function Turned(flips: seq<bool>, component: seq<nat>): (r: seq<bool>)
    ensures |r| == |flips|
  {
    seq(|flips|, i requires 0 <= i < |flips| => if i in component then !flips[i] else flips[i])
  }

  lemma {:induction false} TurningNegatesTotal(alignment: Triangle -> real, mesh: Mesh, a: seq<bool>, b: seq<bool>,
                                               component: seq<nat>)
    requires |a| == |b| == |mesh.triangles| && Within(component, |a|) && Antisymmetric(alignment)
    requires forall k :: 0 <= k < |component| ==> b[component[k]] != a[component[k]]
    ensures Total(alignment, WrittenMesh(mesh, b).triangles, component)
         == -Total(alignment, WrittenMesh(mesh, a).triangles, component)
    decreases |component|
  {
    if |component| > 0 {
      TurningNegatesTotal(alignment, mesh, a, b, component[..|component| - 1]);
      var t := mesh.triangles[component[|component| - 1]];
      assert alignment(Written(t, true)) == -alignment(t);
    }
  }

  lemma {:induction false} TotalReadsTheComponent(alignment: Triangle -> real, mesh: Mesh, a: seq<bool>, b: seq<bool>,
                                                  component: seq<nat>)
    requires |a| == |b| == |mesh.triangles| && Within(component, |a|)
    requires forall k :: 0 <= k < |component| ==> b[component[k]] == a[component[k]]
    ensures Total(alignment, WrittenMesh(mesh, b).triangles, component)
         == Total(alignment, WrittenMesh(mesh, a).triangles, component)
    decreases |component|
  {
    if |component| > 0 {
      TotalReadsTheComponent(alignment, mesh, a, b, component[..|component| - 1]);
    }
  }

  /** No listed triangle faces inward. */
  ghost predicate NoneInward(alignment: Triangle -> real, ts: seq<Triangle>, component: seq<nat>)
    requires Within(component, |ts|)
  {
    forall k :: 0 <= k < |component| ==> alignment(ts[component[k]]) >= 0.0
  }

  ghost predicate NoneOutward(alignment: Triangle -> real, ts: seq<Triangle>, component: seq<nat>)
    requires Within(component, |ts|)
  {
    forall k :: 0 <= k < |component| ==> alignment(ts[component[k]]) <= 0.0
  }

  /** No listed triangle faces outward, and one clearly faces inward. */
  ghost predicate AllInward(alignment: Triangle -> real, ts: seq<Triangle>, component: seq<nat>)
    requires Within(component, |ts|)
  {
    && NoneOutward(alignment, ts, component)
    && (exists k :: 0 <= k < |component| && alignment(ts[component[k]]) < -MINIMUM_ALIGNMENT)
  }

  lemma {:induction false} TotalFollowsTheSigns(alignment: Triangle -> real, ts: seq<Triangle>, component: seq<nat>)
    requires Within(component, |ts|)
    ensures NoneInward(alignment, ts, component) ==> Total(alignment, ts, component) >= 0.0
    ensures NoneOutward(alignment, ts, component) ==> Total(alignment, ts, component) <= 0.0
    ensures AllInward(alignment, ts, component) ==> Total(alignment, ts, component) < -MINIMUM_ALIGNMENT
    decreases |component|
  {
    if |component| > 0 {
      var fewer, last := component[..|component| - 1], alignment(ts[component[|component| - 1]]);
      TotalFollowsTheSigns(alignment, ts, fewer);
      assert Total(alignment, ts, component) == Total(alignment, ts, fewer) + last;
      hide Total;
      if AllInward(alignment, ts, component) {
        var k :| 0 <= k < |component| && alignment(ts[component[k]]) < -MINIMUM_ALIGNMENT;
        assert NoneOutward(alignment, ts, fewer) && last <= 0.0;
        assert k < |fewer| ==> fewer[k] == component[k];
      }
    }
  }

  ghost predicate DistinctMembers(c: seq<nat>) {
    forall j, k :: 0 <= j < k < |c| ==> c[j] != c[k]
  }

  method FlipAll(flips: seq<bool>, component: seq<nat>) returns (r: seq<bool>)
    requires DistinctMembers(component) && Within(component, |flips|)
    ensures r == Turned(flips, component)
  {
    r := flips;
    for i := 0 to |component|
      invariant r == Turned(flips, component[..i])
    {
      assert component[..i + 1] == component[..i] + [component[i]];
      r := r[component[i] := !r[component[i]]];
    }
    assert component[..|component|] == component;
  }

  /** The component is turned over as a whole exactly when, as written so far, it clearly faces inward; otherwise it is left
      alone. Afterwards it does not, whatever turns round with a triangle. */
  method OrientToNormals(mesh: Mesh, alignment: Triangle -> real, flips: seq<bool>, component: seq<nat>) returns (r: seq<bool>)
    requires DistinctMembers(component) && Within(component, |flips|) && |flips| == |mesh.triangles|
    ensures r == if Total(alignment, WrittenMesh(mesh, flips).triangles, component) < -MINIMUM_ALIGNMENT
                 then Turned(flips, component) else flips
    ensures Antisymmetric(alignment) ==>
      Total(alignment, WrittenMesh(mesh, r).triangles, component) >= -MINIMUM_ALIGNMENT
    ensures NoneInward(alignment, WrittenMesh(mesh, flips).triangles, component) ==> r == flips
    ensures AllInward(alignment, WrittenMesh(mesh, flips).triangles, component) ==>
      forall t :: t in component ==> r[t] == !flips[t]
  {
    ghost var written := WrittenMesh(mesh, flips).triangles;
    TotalFollowsTheSigns(alignment, written, component);
    var score, magnitude := 0.0, 0.0;
    for i := 0 to |component|
      invariant score == Total(alignment, written, component[..i])
      invariant -magnitude <= score <= magnitude
    {
      assert component[..i + 1][..i] == component[..i];
      var a := alignment(Written(mesh.triangles[component[i]], flips[component[i]]));
      score := score + a;
      magnitude := magnitude + Absolute(a);
    }
    assert component[..|component|] == component;
    r := flips;
    if magnitude <= MINIMUM_ALIGNMENT { return; }
    if score < -MINIMUM_ALIGNMENT {
      r := FlipAll(flips, component);
      if Antisymmetric(alignment) {
        TurningNegatesTotal(alignment, mesh, flips, r, component);
      }
    }
  }

  // ---- Winding components ----

  /** Visited so far: the closed set from before, and this component. */
  ghost predicate Grown(before: seq<bool>, visited: seq<bool>, component: seq<nat>) {
    && |visited| == |before|
    && (forall t :: 0 <= t < |visited| ==> (visited[t] <==> before[t] || t in component))
    && (forall t :: t in component ==> t < |before| && !before[t])
    && DistinctMembers(component)
  }

  ghost predicate VisitedClosed(mesh: Mesh, visited: seq<bool>)
    requires mesh.Valid()
  {
    |visited| == |mesh.triangles| &&
    forall key, t: nat, u: nat :: Joins(mesh, key, t, u) && t < |visited| && u < |visited| && visited[t] ==> visited[u]
  }

  /** Each listed triangle is connected to the root and wound as the root forces it. */
  ghost predicate ForcedFrom(mesh: Mesh, flips: seq<bool>, component: seq<nat>)
    requires InRange(mesh, flips)
  {
    forall k :: 0 <= k < |component| ==>
      component[k] < |flips| && component[0] < |flips|
      && Connected(mesh, component[0], component[k]) && Forced(mesh, flips, component[0], component[k])
  }

  /** All neighbours of triangle t across its first e edges are visited. */
  ghost predicate Explored(mesh: Mesh, visited: seq<bool>, t: nat, e: nat)
    requires mesh.Valid() && t < |mesh.triangles| && |visited| == |mesh.triangles|
  {
    forall k, u: nat :: 0 <= k < e && Joins(mesh, mesh.Edge(t, k).key, t, u) && u < |visited| ==> visited[u]
  }

  lemma ExploredReachesAll(mesh: Mesh, visited: seq<bool>, key: EdgeKey, t: nat, u: nat)
    requires mesh.Valid() && t < |mesh.triangles| && |visited| == |mesh.triangles|
    requires Explored(mesh, visited, t, 3) && Joins(mesh, key, t, u)
    ensures u < |visited| && visited[u]
  {
    JoinedAreTriangles(mesh, key, t, u);
    hide Mesh.At, Mesh.Edge;
    var inc := mesh.At(key);
    var x := if inc[0].triangle == t then inc[0] else inc[1];
    assert x in inc;
    var k := IncidentHasEdge(mesh, key, x);
  }

  lemma NeighbourAcross(mesh: Mesh, key: EdgeKey, t: nat, u: nat)
    requires mesh.Valid() && exists x :: x in mesh.At(key) && x.triangle == t
    ensures Neighbourhood(mesh, key, t, u)
  {
    IncidentsInRange(mesh, key);
    hide Mesh.At;
    var inc := mesh.At(key);
    if |inc| == 2 {
      assert inc[0] in inc && inc[1] in inc;
    }
  }

  /** One component under construction: everything listed is visited, connected to the root and wound as it forces. */
  ghost predicate Growing(mesh: Mesh, before: seq<bool>, flips: seq<bool>, visited: seq<bool>, component: seq<nat>) {
    && InRange(mesh, flips) && |before| == |flips| && |component| > 0
    && Grown(before, visited, component) && ForcedFrom(mesh, flips, component)
  }

  lemma GrowingReaches(mesh: Mesh, before: seq<bool>, flips: seq<bool>, visited: seq<bool>, component: seq<nat>,
                       i: nat, key: EdgeKey, u: nat)
    requires Growing(mesh, before, flips, visited, component) && i < |component| && u < |flips|
    requires Joins(mesh, key, component[i], u) && !visited[u] && Shared(mesh.At(key))
    ensures
      var turned := flips[u := flips[component[i]] != SameDirection(mesh, key)];
      Growing(mesh, before, turned, visited[u := true], component + [u])
  {
    hide Mesh.At, Connected, Forced, Joins, SameDirection;
    var t, root := component[i], component[0];
    var turned := flips[u := flips[t] != SameDirection(mesh, key)];
    var grown := component + [u];
    forall k | 0 <= k < |component| ensures Connected(mesh, root, grown[k]) && Forced(mesh, turned, root, grown[k]) {
      assert component[k] in component && root in component;
      TurningTogetherKeepsForced(mesh, flips, turned, root, component[k]);
    }
    assert grown[i] == t && t in component;
    ForcedAcross(mesh, turned, root, t, u, key);
  }

  /** Looks across one edge and takes in the neighbour there if it is new. */
  method VisitEdge(mesh: Mesh, edges: map<EdgeKey, seq<Incident>>, e: nat, ghost before: seq<bool>,
                   flips: seq<bool>, visited: seq<bool>, component: seq<nat>, i: nat)
    returns (newFlips: seq<bool>, newVisited: seq<bool>, newComponent: seq<nat>)
    requires Growing(mesh, before, flips, visited, component) && i < |component| && e < 3
    requires forall key :: Found(edges, key) == mesh.At(key)
    ensures Growing(mesh, before, newFlips, newVisited, newComponent) && component <= newComponent
    ensures forall t :: 0 <= t < |visited| && visited[t] ==> newVisited[t] && newFlips[t] == flips[t]
    ensures forall u: nat :: u < |visited| && Joins(mesh, mesh.Edge(component[i], e).key, component[i], u) ==> newVisited[u]
  {
    var current := component[i];
    assert current < |visited| by { assert current in component; }
    EdgeIsIncident(mesh, current, e);
    newFlips, newVisited, newComponent := flips, visited, component;
    var key := mesh.Edge(current, e).key;
    var found := Found(edges, key);
    assert found == mesh.At(key);
    forall u: nat ensures Neighbourhood(mesh, key, current, u) {
      NeighbourAcross(mesh, key, current, u);
    }
    hide Mesh.At, Mesh.Edge, Found, Grown, ForcedFrom;
    if |found| != 2 { return; }
    var self, other := if found[0].triangle == current then found[0] else found[1],
                       if found[0].triangle == current then found[1] else found[0];
    assert Neighbourhood(mesh, key, current, other.triangle);
    if other.triangle == current { return; }
    var sameDirection := self.forward == other.forward;
    var requiredFlip := flips[current] != sameDirection;
    if !visited[other.triangle] {
      GrowingReaches(mesh, before, flips, visited, component, i, key, other.triangle);
      newVisited := visited[other.triangle := true];
      newFlips := flips[other.triangle := requiredFlip];
      newComponent := component + [other.triangle];
    }
  }

  /** Only the one triangle on the other side of a two-sided edge joins t there. */
  ghost predicate Neighbourhood(mesh: Mesh, key: EdgeKey, t: nat, u: nat)
    requires mesh.Valid()
  {
    var inc := mesh.At(key);
    if |inc| != 2 then !Joins(mesh, key, t, u)
    else
      var other := if inc[0].triangle == t then inc[1].triangle else inc[0].triangle;
      && (inc[0].triangle == t || inc[1].triangle == t) && other < |mesh.triangles|
      && (Joins(mesh, key, t, u) <==> u == other && other != t)
  }

  method Explore(mesh: Mesh, edges: map<EdgeKey, seq<Incident>>, ghost before: seq<bool>,
                 flips: seq<bool>, visited: seq<bool>, component: seq<nat>, i: nat)
    returns (newFlips: seq<bool>, newVisited: seq<bool>, newComponent: seq<nat>)
    requires Growing(mesh, before, flips, visited, component) && i < |component|
    requires forall key :: Found(edges, key) == mesh.At(key)
    ensures Growing(mesh, before, newFlips, newVisited, newComponent) && component <= newComponent
    ensures forall t :: 0 <= t < |visited| && visited[t] ==> newVisited[t] && newFlips[t] == flips[t]
    ensures component[i] < |newVisited| && Explored(mesh, newVisited, component[i], 3)
  {
    hide Mesh.At, Mesh.Edge, Found, ForcedFrom, Joins;
    newFlips, newVisited, newComponent := flips, visited, component;
    assert component[i] in component;
    for e := 0 to 3
      invariant Growing(mesh, before, newFlips, newVisited, newComponent) && component <= newComponent
      invariant forall t :: 0 <= t < |visited| && visited[t] ==> newVisited[t] && newFlips[t] == flips[t]
      invariant Explored(mesh, newVisited, component[i], e)
    {
      newFlips, newVisited, newComponent := VisitEdge(mesh, edges, e, before, newFlips, newVisited, newComponent, i);
    }
  }

  // ---- A whole component ----

  function Below(n: nat): (s: set<nat>)
    ensures |s| == n && forall x: nat :: x in s <==> x < n
  {
    if n == 0 then {} else Below(n - 1) + {n - 1}
  }

  function Members(c: seq<nat>): set<nat> {
    set t | t in c
  }

  lemma {:induction false} MembersAreCounted(c: seq<nat>)
    requires DistinctMembers(c)
    ensures |Members(c)| == |c|
    decreases |c|
  {
    if |c| > 0 {
      var m := |c| - 1;
      MembersAreCounted(c[..m]);
      assert c == c[..m] + [c[m]];
      assert Members(c) == Members(c[..m]) + {c[m]};
    }
  }

  lemma SmallerSet(a: set<nat>, b: set<nat>)
    requires a <= b
    ensures |a| <= |b|
  {
    assert b == a + (b - a);
  }

  lemma ComponentFits(c: seq<nat>, n: nat)
    requires DistinctMembers(c) && forall t :: t in c ==> t < n
    ensures |c| <= n
  {
    MembersAreCounted(c);
    assert Members(c) <= Below(n);
    SmallerSet(Members(c), Below(n));
  }

  lemma GrownIsComponent(mesh: Mesh, before: seq<bool>, flips: seq<bool>, visited: seq<bool>, component: seq<nat>)
    requires Growing(mesh, before, flips, visited, component) && VisitedClosed(mesh, before)
    requires forall k :: 0 <= k < |component| ==> component[k] < |visited| && Explored(mesh, visited, component[k], 3)
    ensures IsComponent(mesh, component) && Wound(mesh, flips, component) && VisitedClosed(mesh, visited)
  {
    hide Explored, Connected, Forced, Mesh.At;
    forall key, t: nat, u: nat | Joins(mesh, key, t, u) && t < |visited| && u < |visited| && visited[t] ensures visited[u] {
      if t in component {
        var k :| 0 <= k < |component| && component[k] == t;
        ExploredReachesAll(mesh, visited, key, t, u);
      }
    }
    var all := set t | t in component;
    forall key, t, u | Joins(mesh, key, t, u) && t in all ensures u in all {
      JoinedAreTriangles(mesh, key, t, u);
      var k :| 0 <= k < |component| && component[k] == t;
      ExploredReachesAll(mesh, visited, key, t, u);
    }
  }

  /** From one unvisited triangle, breadth first over shared edges: exactly its component, each triangle once. */
  method Propagate(mesh: Mesh, edges: map<EdgeKey, seq<Incident>>, start: nat, flips: seq<bool>, visited: seq<bool>)
    returns (newFlips: seq<bool>, newVisited: seq<bool>, component: seq<nat>)
    requires InRange(mesh, flips) && VisitedClosed(mesh, visited) && start < |visited| && !visited[start]
    requires forall key :: Found(edges, key) == mesh.At(key)
    ensures InRange(mesh, newFlips) && IsComponent(mesh, component) && Wound(mesh, newFlips, component)
    ensures component[0] == start && VisitedClosed(mesh, newVisited) && Grown(visited, newVisited, component)
    ensures !newFlips[start]
    ensures forall t :: 0 <= t < |visited| && visited[t] ==> newFlips[t] == flips[t]
  {
    hide Mesh.At, Found, Connected, Forced;
    newFlips, newVisited, component := flips[start := false], visited[start := true], [start];
    RootIsForced(mesh, newFlips, start);
    var head := 0;
    ComponentFits(component, |visited|);
    while head < |component|
      invariant 0 <= head <= |component| <= |visited| && component[0] == start
      invariant Growing(mesh, visited, newFlips, newVisited, component)
      invariant newVisited[start] && !newFlips[start]
      invariant forall k :: 0 <= k < head ==> component[k] < |newVisited| && Explored(mesh, newVisited, component[k], 3)
      invariant forall t :: 0 <= t < |visited| && visited[t] ==> newVisited[t] && newFlips[t] == flips[t]
      decreases |visited| - |component|, |component| - head
    {
      ghost var earlier := newVisited;
      newFlips, newVisited, component := Explore(mesh, edges, visited, newFlips, newVisited, component, head);
      ComponentFits(component, |visited|);
      head := head + 1;
    }
    GrownIsComponent(mesh, visited, newFlips, newVisited, component);
  }

  lemma RootIsForced(mesh: Mesh, flips: seq<bool>, root: nat)
    requires InRange(mesh, flips) && root < |flips|
    ensures Connected(mesh, root, root) && Forced(mesh, flips, root, root)
  {}

  // ---- The whole pass ----

  /** What is settled: complete components, wound as their edges force, facing outward. */
  ghost predicate Settled(mesh: Mesh, alignment: Triangle -> real, flips: seq<bool>, components: seq<seq<nat>>) {
    InRange(mesh, flips) && forall c :: c in components ==> SettledOne(mesh, alignment, flips, c)
  }

  ghost predicate SettledOne(mesh: Mesh, alignment: Triangle -> real, flips: seq<bool>, c: seq<nat>)
    requires InRange(mesh, flips)
  {
    IsComponent(mesh, c) && Wound(mesh, flips, c) && Within(c, |flips|) && Faces(mesh, alignment, flips, c)
  }

  /** The triangles of the component, as written: they add up to nothing clearly negative when turning a triangle over turns
      its alignment round; the first one is as it was given unless they would have added up to that. */
  ghost predicate Faces(mesh: Mesh, alignment: Triangle -> real, flips: seq<bool>, c: seq<nat>)
    requires |flips| == |mesh.triangles| && Within(c, |flips|)
  {
    var total, turned := Total(alignment, WrittenMesh(mesh, flips).triangles, c),
                         Total(alignment, WrittenMesh(mesh, Turned(flips, c)).triangles, c);
    && |c| > 0 && (Antisymmetric(alignment) ==> total >= -MINIMUM_ALIGNMENT)
    && (if flips[c[0]] then turned < -MINIMUM_ALIGNMENT else total >= -MINIMUM_ALIGNMENT)
  }

  ghost predicate AllVisited(visited: seq<bool>, c: seq<nat>) {
    forall t :: t in c ==> t < |visited| && visited[t]
  }

  lemma SettledStays(mesh: Mesh, alignment: Triangle -> real, a: seq<bool>, b: seq<bool>, c: seq<nat>)
    requires InRange(mesh, a) && |b| == |a| && SettledOne(mesh, alignment, a, c)
    requires forall k :: 0 <= k < |c| && c[k] < |a| ==> b[c[k]] == a[c[k]]
    ensures SettledOne(mesh, alignment, b, c)
  {
    hide Forced, Connected, Closed;
    TotalReadsTheComponent(alignment, mesh, a, b, c);
    forall k | 0 <= k < |c| ensures Turned(a, c)[c[k]] == Turned(b, c)[c[k]] {
      assert c[k] in c;
    }
    TotalReadsTheComponent(alignment, mesh, Turned(a, c), Turned(b, c), c);
    hide Total, Turned, WrittenMesh;
    forall k | 0 <= k < |c| ensures Forced(mesh, b, c[0], c[k]) {
      TurningTogetherKeepsForced(mesh, a, b, c[0], c[k]);
    }
  }

  lemma TurnedIsWound(mesh: Mesh, flips: seq<bool>, c: seq<nat>)
    requires InRange(mesh, flips) && IsComponent(mesh, c) && Wound(mesh, flips, c)
    ensures Wound(mesh, Turned(flips, c), c)
  {
    hide Forced, Connected, Closed;
    var turned := Turned(flips, c);
    forall k | 0 <= k < |c| ensures Forced(mesh, turned, c[0], c[k]) {
      assert c[0] in c && c[k] in c;
      TurningTogetherKeepsForced(mesh, flips, turned, c[0], c[k]);
    }
  }

  lemma TurnedTwice(flips: seq<bool>, c: seq<nat>)
    ensures Turned(Turned(flips, c), c) == flips
  {}

  /** The component of one unvisited triangle, wound and facing outward; earlier triangles keep their winding. */
  method OrientComponent(mesh: Mesh, edges: map<EdgeKey, seq<Incident>>, alignment: Triangle -> real, start: nat,
                         flips: seq<bool>, visited: seq<bool>)
    returns (newFlips: seq<bool>, newVisited: seq<bool>, component: seq<nat>)
    requires InRange(mesh, flips) && VisitedClosed(mesh, visited) && start < |visited| && !visited[start]
    requires forall key :: Found(edges, key) == mesh.At(key)
    ensures InRange(mesh, newFlips) && SettledOne(mesh, alignment, newFlips, component)
    ensures VisitedClosed(mesh, newVisited) && Grown(visited, newVisited, component) && start in component
    ensures forall t :: 0 <= t < |visited| && visited[t] ==> newFlips[t] == flips[t]
  {
    hide Mesh.At, Found, Forced, Connected, Closed, Total, Joins, WrittenMesh;
    newFlips, newVisited, component := Propagate(mesh, edges, start, flips, visited);
    assert component[0] in component;
    TurnedIsWound(mesh, newFlips, component);
    ghost var settled := newFlips;
    TurnedTwice(settled, component);
    newFlips := OrientToNormals(mesh, alignment, newFlips, component);
    forall t | 0 <= t < |visited| && visited[t] ensures newFlips[t] == flips[t] {
      assert t !in component && newFlips[t] == settled[t];
    }
  }

  /** Components one after another: they split the triangles, each is closed and connected, wound as its shared edges force
      it, and never clearly turned against its normals. */
  method OrientConsistentComponents(mesh: Mesh, edges: map<EdgeKey, seq<Incident>>, alignment: Triangle -> real)
    returns (flips: seq<bool>, ghost components: seq<seq<nat>>)
    requires mesh.Valid()
    requires forall key :: Found(edges, key) == mesh.At(key)
    ensures Settled(mesh, alignment, flips, components) && Partition(|flips|, components)
  {
    hide Mesh.At, Found, SettledOne;
    flips := seq(|mesh.triangles|, _ => false);
    var visited := seq(|mesh.triangles|, _ => false);
    components := [];
    for start := 0 to |mesh.triangles|
      invariant |visited| == |flips| && VisitedClosed(mesh, visited) && Settled(mesh, alignment, flips, components)
      invariant forall t :: 0 <= t < start ==> visited[t]
      invariant Listed(visited, components)
    {
      if visited[start] { continue; }
      ghost var earlierFlips, earlierVisited, earlier := flips, visited, components;
      var component;
      flips, visited, component := OrientComponent(mesh, edges, alignment, start, flips, visited);
      components := components + [component];
      ListedGrows(earlierVisited, visited, earlier, component);
      forall c | c in components ensures SettledOne(mesh, alignment, flips, c) {
        if c in earlier {
          EarlierMembers(earlierVisited, earlier, c);
          SettledStays(mesh, alignment, earlierFlips, flips, c);
        }
      }
    }
  }

  /** The visited triangles are exactly those of the components, each in one of them. */
  ghost predicate Listed(visited: seq<bool>, components: seq<seq<nat>>) {
    && (forall t :: 0 <= t < |visited| && visited[t] ==> Covered(components, t))
    && (forall c :: c in components ==> AllVisited(visited, c))
    && (forall i, j, t :: 0 <= i < j < |components| && t in components[i] ==> t !in components[j])
  }

  lemma EarlierMembers(visited: seq<bool>, components: seq<seq<nat>>, c: seq<nat>)
    requires Listed(visited, components) && c in components
    ensures forall k :: 0 <= k < |c| ==> c[k] < |visited| && visited[c[k]]
  {
    forall k | 0 <= k < |c| ensures c[k] < |visited| && visited[c[k]] {
      assert c[k] in c && AllVisited(visited, c);
    }
  }

  lemma ListedGrows(before: seq<bool>, visited: seq<bool>, components: seq<seq<nat>>, c: seq<nat>)
    requires Listed(before, components) && Grown(before, visited, c)
    ensures Listed(visited, components + [c])
  {
    var all := components + [c];
    forall t | 0 <= t < |visited| && visited[t] ensures Covered(all, t) {
      if before[t] {
        var d :| d in components && t in d;
        assert d in all;
      } else {
        assert c in all;
      }
    }
    forall i, j, t | 0 <= i < j < |all| && t in all[i] ensures t !in all[j] {
      if j == |components| {
        assert AllVisited(before, components[i]);
      }
    }
  }

  // ---- Dropping unused vertices ----

  /** How many of the first n vertices are referenced. */
  function Rank(referenced: seq<bool>, n: nat): (r: nat)
    requires n <= |referenced|
    ensures r <= n
  {
    if n == 0 then 0 else Rank(referenced, n - 1) + (if referenced[n - 1] then 1 else 0)
  }

  lemma {:induction false} RankKeepsOrder(referenced: seq<bool>, a: nat, b: nat)
    requires a < b <= |referenced| && referenced[a]
    ensures Rank(referenced, a) < Rank(referenced, b)
    decreases b
  {
    if a + 1 < b {
      RankKeepsOrder(referenced, a, b - 1);
    }
  }

  ghost predicate SameVertex<V>(vertices: seq<V>, v: nat, newVertices: seq<V>, w: nat) {
    v < |vertices| && w < |newVertices| && newVertices[w] == vertices[v]
  }

  /** Every index still names the vertex it named; every vertex kept is named; the order of vertices is kept. */
  ghost predicate SameGeometry<V>(vertices: seq<V>, indices: seq<nat>, newVertices: seq<V>, newIndices: seq<nat>) {
    && |newIndices| == |indices|
    && (forall k :: 0 <= k < |indices| ==> SameVertex(vertices, indices[k], newVertices, newIndices[k]))
    && (forall j, k :: 0 <= j < |indices| && 0 <= k < |indices| ==>
          (newIndices[j] < newIndices[k] <==> indices[j] < indices[k]))
    && (forall v :: 0 <= v < |newVertices| ==> v in newIndices)
  }

  method MarkReferenced(n: nat, indices: seq<nat>) returns (referenced: seq<bool>)
    requires forall k :: 0 <= k < |indices| ==> indices[k] < n
    ensures |referenced| == n && forall v :: 0 <= v < n ==> (referenced[v] <==> v in indices)
  {
    referenced := seq(n, _ => false);
    for k := 0 to |indices|
      invariant |referenced| == n && forall v :: 0 <= v < n ==> (referenced[v] <==> v in indices[..k])
    {
      assert indices[..k + 1] == indices[..k] + [indices[k]];
      referenced := referenced[indices[k] := true];
    }
    assert indices[..|indices|] == indices;
  }

  /** Keeps the referenced vertices in order; each gets its rank, and `owners` lists which they were. */
  method KeepReferenced<V>(vertices: seq<V>, referenced: seq<bool>)
    returns (compacted: seq<V>, remap: seq<nat>, ghost owners: seq<nat>)
    requires |referenced| == |vertices|
    ensures |remap| == |vertices| && |owners| == |compacted|
    ensures forall w :: 0 <= w < |vertices| && referenced[w] ==>
      remap[w] == Rank(referenced, w) && SameVertex(vertices, w, compacted, remap[w])
    ensures forall r :: 0 <= r < |owners| ==> owners[r] < |vertices| && referenced[owners[r]] && remap[owners[r]] == r
  {
    remap := seq(|vertices|, _ => 0);
    compacted, owners := [], [];
    for v := 0 to |vertices|
      invariant |remap| == |vertices| && |owners| == |compacted| == Rank(referenced, v)
      invariant forall w :: 0 <= w < v && referenced[w] ==>
        remap[w] == Rank(referenced, w) && SameVertex(vertices, w, compacted, remap[w])
      invariant forall r :: 0 <= r < |owners| ==> owners[r] < v && referenced[owners[r]] && remap[owners[r]] == r
    {
      if !referenced[v] { continue; }
      remap := remap[v := |compacted|];
      compacted := compacted + [vertices[v]];
      owners := owners + [v];
    }
  }

  method CompactVertices<V>(vertices: seq<V>, indices: seq<nat>) returns (compacted: seq<V>, newIndices: seq<nat>)
    requires forall k :: 0 <= k < |indices| ==> indices[k] < |vertices|
    ensures SameGeometry(vertices, indices, compacted, newIndices)
  {
    var referenced := MarkReferenced(|vertices|, indices);
    var remap;
    ghost var owners;
    compacted, remap, owners := KeepReferenced(vertices, referenced);
    newIndices := seq(|indices|, k requires 0 <= k < |indices| => remap[indices[k]]);
    forall j, k | 0 <= j < |indices| && 0 <= k < |indices|
      ensures newIndices[j] < newIndices[k] <==> indices[j] < indices[k]
    {
      var a, b := indices[j], indices[k];
      assert a in indices && b in indices;
      if a < b { RankKeepsOrder(referenced, a, b); }
      if b < a { RankKeepsOrder(referenced, b, a); }
    }
    forall r | 0 <= r < |compacted| ensures r in newIndices {
      assert owners[r] in indices;
      var k :| 0 <= k < |indices| && indices[k] == owners[r];
      assert newIndices[k] == r;
    }
    forall k | 0 <= k < |indices| ensures SameVertex(vertices, indices[k], compacted, newIndices[k]) {
      assert indices[k] in indices;
    }
  }

  // ---- A whole buffer ----

  /** A position as its key sees it; everything else about a vertex is carried along. */
  datatype Vertex = Vertex(key: PositionKey, payload: nat)

  type Soundness = (Vertex, Vertex, Vertex) -> bool

  predicate Keeps(vertices: seq<Vertex>, sound: Soundness, t: Triangle) {
    t.a < |vertices| && t.b < |vertices| && t.c < |vertices| && sound(vertices[t.a], vertices[t.b], vertices[t.c])
  }

  function TripleAt(indices: seq<nat>, i: nat): Triangle
    requires 3 * i + 2 < |indices|
  {
    Triangle(indices[3 * i], indices[3 * i + 1], indices[3 * i + 2])
  }

  /** The triples in range and sound, in order. */
  function Kept(vertices: seq<Vertex>, indices: seq<nat>, sound: Soundness, n: nat): seq<Triangle>
    requires 3 * n <= |indices|
  {
    if n == 0 then []
    else
      var t := TripleAt(indices, n - 1);
      Kept(vertices, indices, sound, n - 1) + (if Keeps(vertices, sound, t) then [t] else [])
  }

  function KeysOf(vertices: seq<Vertex>): (r: seq<PositionKey>)
    ensures |r| == |vertices|
  {
    seq(|vertices|, v requires 0 <= v < |vertices| => vertices[v].key)
  }

  lemma {:induction false} KeptAreInRange(vertices: seq<Vertex>, indices: seq<nat>, sound: Soundness, n: nat)
    requires 3 * n <= |indices|
    ensures Mesh(KeysOf(vertices), Kept(vertices, indices, sound, n)).Valid()
    ensures forall t :: t in Kept(vertices, indices, sound, n) ==> Keeps(vertices, sound, t)
    decreases n
  {
    if n > 0 {
      KeptAreInRange(vertices, indices, sound, n - 1);
    }
  }

  /** Exactly the sound triples are kept, each as its three indices stand, in the order they stand in. */
  lemma {:induction false} KeptAreTheSoundTriples(vertices: seq<Vertex>, indices: seq<nat>, sound: Soundness, n: nat)
    returns (places: seq<nat>)
    requires 3 * n <= |indices|
    ensures |places| == |Kept(vertices, indices, sound, n)|
    ensures forall j, k :: 0 <= j < k < |places| ==> places[j] < places[k]
    ensures forall i: nat :: i in places <==> i < n && SoundTriple(vertices, indices, sound, i)
    ensures forall k :: 0 <= k < |places| ==>
      && 3 * places[k] + 2 < |indices|
      && Kept(vertices, indices, sound, n)[k]
         == Triangle(indices[3 * places[k]], indices[3 * places[k] + 1], indices[3 * places[k] + 2])
    decreases n
  {
    hide SoundTriple;
    if n == 0 {
      places := [];
    } else {
      places := KeptAreTheSoundTriples(vertices, indices, sound, n - 1);
      OneMoreTriple(vertices, indices, sound, n);
      hide Kept;
      forall k | 0 <= k < |places| ensures places[k] < n - 1 {
        assert places[k] in places;
      }
      if SoundTriple(vertices, indices, sound, n - 1) {
        ghost var fewer := places;
        places := fewer + [n - 1];
        assert forall i: nat :: i in places <==> i in fewer || i == n - 1;
      }
    }
  }

  lemma OneMoreTriple(vertices: seq<Vertex>, indices: seq<nat>, sound: Soundness, n: nat)
    requires 0 < n && 3 * n <= |indices|
    ensures Kept(vertices, indices, sound, n)
         == Kept(vertices, indices, sound, n - 1)
            + (if SoundTriple(vertices, indices, sound, n - 1)
               then [Triangle(indices[3 * (n - 1)], indices[3 * (n - 1) + 1], indices[3 * (n - 1) + 2])] else [])
  {}

  /** The triple's three indices are in range and its vertices, in that order, make a sound triangle. */
  predicate SoundTriple(vertices: seq<Vertex>, indices: seq<nat>, sound: Soundness, i: nat) {
    && 3 * i + 2 < |indices|
    && indices[3 * i] < |vertices| && indices[3 * i + 1] < |vertices| && indices[3 * i + 2] < |vertices|
    && sound(vertices[indices[3 * i]], vertices[indices[3 * i + 1]], vertices[indices[3 * i + 2]])
  }

  /** Three indices for each triangle. */
  function Flat(ts: seq<Triangle>): seq<nat> {
    if |ts| == 0 then []
    else Flat(ts[..|ts| - 1]) + [ts[|ts| - 1].a, ts[|ts| - 1].b, ts[|ts| - 1].c]
  }

  lemma {:induction false} FlatInRange(ts: seq<Triangle>, n: nat)
    requires forall k :: 0 <= k < |ts| ==> ts[k].a < n && ts[k].b < n && ts[k].c < n
    ensures |Flat(ts)| == 3 * |ts| && forall k :: 0 <= k < |Flat(ts)| ==> Flat(ts)[k] < n
    decreases |ts|
  {
    if |ts| > 0 {
      FlatInRange(ts[..|ts| - 1], n);
    }
  }

  /** Triangle k is written as its three corners, in order, at the three places that are its own. */
  lemma {:induction false} FlatAt(ts: seq<Triangle>, k: nat)
    requires k < |ts|
    ensures |Flat(ts)| == 3 * |ts|
    ensures Flat(ts)[3 * k] == ts[k].a && Flat(ts)[3 * k + 1] == ts[k].b && Flat(ts)[3 * k + 2] == ts[k].c
    decreases |ts|
  {
    if k < |ts| - 1 {
      FlatAt(ts[..|ts| - 1], k);
    } else if k > 0 {
      FlatAt(ts[..|ts| - 1], k - 1);
    }
  }

  class MeshBuffer {
    var vertices: seq<Vertex>
    var indices: seq<nat>

    constructor (vertices: seq<Vertex>, indices: seq<nat>)
      ensures this.vertices == vertices && this.indices == indices
    {
      this.vertices, this.indices := vertices, indices;
    }

    method KeepTriangles(sound: Soundness) returns (kept: seq<Triangle>)
      requires |indices| % 3 == 0
      ensures kept == Kept(vertices, indices, sound, |indices| / 3)
    {
      kept := [];
      for i := 0 to |indices| / 3
        invariant kept == Kept(vertices, indices, sound, i)
      {
        var t := TripleAt(indices, i);
        if Keeps(vertices, sound, t) { kept := kept + [t]; }
      }
    }

    method WriteIndices(kept: seq<Triangle>, flips: seq<bool>) returns (written: seq<nat>)
      requires |flips| == |kept|
      ensures written == Flat(WrittenMesh(Mesh([], kept), flips).triangles)
    {
      ghost var ts := WrittenMesh(Mesh([], kept), flips).triangles;
      written := [];
      for i := 0 to |kept|
        invariant written == Flat(ts[..i])
      {
        assert ts[..i + 1][..i] == ts[..i];
        written := written + [kept[i].a];
        if flips[i] {
          written := written + [kept[i].c] + [kept[i].b];
        } else {
          written := written + [kept[i].b] + [kept[i].c];
        }
      }
      assert ts[..|kept|] == ts;
    }

    /** The sound triangles, in order, each as it was or turned over; components wound as their shared edges force them and
        facing outward; the same vertices under new numbers, and no others. */
    method FinalizeDeformedTriangles(sound: Soundness, alignment: (Vertex, Vertex, Vertex) -> real)
      returns (ghost mesh: Mesh, ghost flips: seq<bool>, ghost components: seq<seq<nat>>)
      requires |indices| % 3 == 0
      modifies this
      ensures mesh == Mesh(KeysOf(old(vertices)), Kept(old(vertices), old(indices), sound, |old(indices)| / 3)) && mesh.Valid()
      ensures Settled(mesh, AlignmentOf(old(vertices), alignment), flips, components)
      ensures Partition(|mesh.triangles|, components) && |flips| == |mesh.triangles|
      ensures SameGeometry(old(vertices), Flat(WrittenMesh(mesh, flips).triangles), vertices, indices)
    {
      hide Kept, KeysOf, Settled, Partition, SameGeometry, Flat;
      var kept := KeepTriangles(sound);
      KeptAreInRange(vertices, indices, sound, |indices| / 3);
      var m := Mesh(KeysOf(vertices), kept);
      var edges := CollectEdges(m);
      var turns;
      turns, components := OrientConsistentComponents(m, edges, AlignmentOf(vertices, alignment));
      mesh, flips := m, turns;
      SettledTurns(m, AlignmentOf(vertices, alignment), turns, components);
      var written := WriteIndices(kept, turns);
      FlatInRange(WrittenMesh(m, turns).triangles, |vertices|);
      vertices, indices := CompactVertices(vertices, written);
    }
  }

  lemma SettledTurns(mesh: Mesh, alignment: Triangle -> real, flips: seq<bool>, components: seq<seq<nat>>)
    requires Settled(mesh, alignment, flips, components)
    ensures |flips| == |mesh.triangles|
  {}

  /** A triangle's alignment, told by its corners in the order they are given. */
  function AlignmentOf(vertices: seq<Vertex>, alignment: (Vertex, Vertex, Vertex) -> real): Triangle -> real {
    (t: Triangle) =>
      if t.a < |vertices| && t.b < |vertices| && t.c < |vertices|
      then alignment(vertices[t.a], vertices[t.b], vertices[t.c]) else 0.0
  }

  lemma CornersTurnRound(vertices: seq<Vertex>, alignment: (Vertex, Vertex, Vertex) -> real)
    requires forall a, b, c :: alignment(a, c, b) == -alignment(a, b, c)
    ensures Antisymmetric(AlignmentOf(vertices, alignment))
  {}

  /** In the written triangles each proper edge shared within the set is walked once in each direction. */
  ghost predicate WrittenBothWays(mesh: Mesh, flips: seq<bool>, s: set<nat>)
    requires InRange(mesh, flips)
  {
    var written := WrittenMesh(mesh, flips);
    written.Valid() &&
    forall key: EdgeKey :: key.first != key.second && Shared(mesh.At(key)) && mesh.At(key)[0].triangle in s ==>
      Shared(written.At(key)) && written.At(key)[0].forward != written.At(key)[1].forward
  }

  /** For every mesh and every closed set of its triangles: the output winds the set consistently exactly when the set can
      be wound consistently at all, and then each of its proper shared edges is written once in each direction. */
  lemma FinalWindingIsConsistent(mesh: Mesh, alignment: Triangle -> real, flips: seq<bool>, components: seq<seq<nat>>, s: set<nat>)
    requires mesh.Valid() && Closed(mesh, s)
    requires Settled(mesh, alignment, flips, components) && Partition(|mesh.triangles|, components)
    ensures Consistent(mesh, flips, s) <==> exists g: seq<bool> :: Orients(mesh, g, s)
    ensures Consistent(mesh, flips, s) ==> WrittenBothWays(mesh, flips, s)
  {
    WoundMeansConsistent(mesh, flips, components, s);
    if Consistent(mesh, flips, s) {
      assert WrittenMesh(mesh, flips).Valid();
      forall key: EdgeKey | key.first != key.second && Shared(mesh.At(key)) && mesh.At(key)[0].triangle in s
        ensures var w := WrittenMesh(mesh, flips).At(key); Shared(w) && w[0].forward != w[1].forward
      {
        WrittenEdgesAreOpposite(mesh, flips, key);
        hide Mesh.At, Orients, Settled, Partition, WrittenMesh;
        assert Joins(mesh, key, mesh.At(key)[0].triangle, mesh.At(key)[1].triangle);
      }
    }
  }
}
