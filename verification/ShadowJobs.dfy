/** Meshing jobs and their versions, the requests a shadow queue holds, and the list operations it performs on them. */
module ShadowJobs {
  import opened Numbers
  import opened ChunkKeys

  const COMMITTED_EDIT_PRIORITY: I32 := 0x7FFF_FFFF
  const VISIBILITY_COVERAGE_PRIORITY: I32 := 0x7FFF_FFFF - 1000002 - 1

  datatype Job = Job(key: ChunkKey, generation: U64, sourceRevision: U64, worldRevision: U64, sequence: U64, priority: I32)

  datatype Surface = Terrain | StaticWater

  datatype Stage = PostMeshAuthority | PreMeshField

  /** Recorded cells, pages and meshes are carried along, never looked into. */
  type Handle = nat

  datatype Capture = Capture(
    job: Job, transitionMask: U8, cachedTransitionMask: U8, surface: Surface, stage: Stage, waterExpected: bool,
    cpuMeshOmitted: bool, incremental: bool, dirtyBricks: U8, visibilityMask: U8, dirtyBounds: Option<Box3>,
    records: seq<Handle>, retainedPages: seq<Handle>, terrainMesh: Option<Handle>, waterMesh: Option<Handle>)

  datatype Request = Request(capture: Capture, id: nat)

  datatype Identity = Identity(key: ChunkKey, generation: U64, sourceRevision: U64, worldRevision: U64,
                               transitionMask: U8, visibilityMask: U8, surface: Surface)

  // ---- Versions ----

  predicate SameVersion(a: Job, b: Job) {
    a.key == b.key && a.generation == b.generation && a.sourceRevision == b.sourceRevision
    && a.worldRevision == b.worldRevision
  }

  /** A newer source revision, or the same key at a newer world revision or generation. */
  predicate VersionSupersedes(incoming: Job, queued: Job) {
    if incoming.sourceRevision != queued.sourceRevision then incoming.sourceRevision > queued.sourceRevision
    else if incoming.key != queued.key then false
    else if incoming.worldRevision != queued.worldRevision then incoming.worldRevision > queued.worldRevision
    else incoming.generation > queued.generation
  }

  /** As above, but an unrelated job of the same source revision gives way to a higher priority. */
  predicate JobSupersedes(incoming: Job, queued: Job) {
    if incoming.sourceRevision != queued.sourceRevision then incoming.sourceRevision > queued.sourceRevision
    else if incoming.key == queued.key && incoming.worldRevision != queued.worldRevision then
      incoming.worldRevision > queued.worldRevision
    else if incoming.key == queued.key && incoming.generation != queued.generation then
      incoming.generation > queued.generation
    else incoming.priority > queued.priority
  }

  /** The same key at a newer source revision, world revision or generation. */
  predicate SupersedesQueued(incoming: Job, queued: Job) {
    incoming.key == queued.key && (
      || incoming.sourceRevision > queued.sourceRevision
      || (incoming.sourceRevision == queued.sourceRevision && (
           || incoming.worldRevision > queued.worldRevision
           || (incoming.worldRevision == queued.worldRevision && incoming.generation > queued.generation))))
  }

  predicate Precedes(a: Job, b: Job) {
    if a.sourceRevision != b.sourceRevision then a.sourceRevision > b.sourceRevision
    else if a.worldRevision != b.worldRevision then a.worldRevision > b.worldRevision
    else if a.priority != b.priority then a.priority > b.priority
    else if a.key == b.key && a.generation != b.generation then a.generation > b.generation
    else a.sequence < b.sequence
  }

  predicate Interaction(j: Job) { j.priority == COMMITTED_EDIT_PRIORITY }

  predicate Coverage(j: Job) { j.priority >= VISIBILITY_COVERAGE_PRIORITY && !Interaction(j) }

  predicate IdentityMatches(r: Request, identity: Identity) {
    identity == Identity(r.capture.job.key, r.capture.job.generation, r.capture.job.sourceRevision,
                         r.capture.job.worldRevision, r.capture.transitionMask, r.capture.visibilityMask, r.capture.surface)
  }

  // ---- Lists of requests ----

  type Test = Request -> bool

  function FirstIndex(s: seq<Request>, p: Test): (i: nat)
    ensures i <= |s| && (i < |s| ==> p(s[i])) && (forall k :: 0 <= k < i ==> !p(s[k]))
  {
    if |s| == 0 || p(s[0]) then 0 else 1 + FirstIndex(s[1..], p)
  }

  /** The requests that fail the test, in order. */
  function Without(s: seq<Request>, p: Test): (r: seq<Request>)
    ensures |r| <= |s|
    ensures forall x :: x in r <==> x in s && !p(x)
    ensures |r| == |s| <==> forall x :: x in s ==> !p(x)
  {
    if |s| == 0 then []
    else
      assert s == [s[0]] + s[1..];
      (if p(s[0]) then [] else [s[0]]) + Without(s[1..], p)
  }

  function Dropped(s: seq<Request>, i: nat): seq<Request>
    requires i < |s|
  {
    s[..i] + s[i + 1..]
  }

  predicate VersionIn(s: seq<Request>, j: Job) {
    exists r :: r in s && SameVersion(r.capture.job, j)
  }

  function OfVersion(j: Job): Test {
    (r: Request) => SameVersion(r.capture.job, j)
  }

  function WithId(id: nat): Test {
    (r: Request) => r.id == id
  }

  ghost predicate DistinctIds(s: seq<Request>) {
    forall i, j :: 0 <= i < j < |s| ==> s[i].id != s[j].id
  }

  function IdsOf(s: seq<Request>): set<nat> {
    set r | r in s :: r.id
  }

  lemma {:induction false} WithoutKeepsDistinct(s: seq<Request>, p: Test)
    requires DistinctIds(s)
    ensures DistinctIds(Without(s, p))
    ensures IdsOf(Without(s, p)) <= IdsOf(s)
    decreases |s|
  {
    if |s| > 0 {
      var rest := Without(s[1..], p);
      WithoutKeepsDistinct(s[1..], p);
      forall r | r in rest ensures r.id != s[0].id {
        var k :| 0 <= k < |s[1..]| && s[1..][k] == r;
        assert s[k + 1] == r;
      }
      assert Without(s, p) == (if p(s[0]) then [] else [s[0]]) + rest;
    }
  }

  lemma DroppedKeepsDistinct(s: seq<Request>, i: nat)
    requires i < |s| && DistinctIds(s)
    ensures DistinctIds(Dropped(s, i))
    ensures IdsOf(Dropped(s, i)) == IdsOf(s) - {s[i].id}
    ensures forall r :: r in Dropped(s, i) <==> r in s && r != s[i]
  {
    assert s == s[..i] + [s[i]] + s[i + 1..];
    forall v | v in IdsOf(s) - {s[i].id} ensures v in IdsOf(Dropped(s, i)) {
      var r :| r in s && r.id == v;
      assert r in Dropped(s, i);
    }
  }

  lemma AddedKeepsDistinct(s: seq<Request>, r: Request)
    requires DistinctIds(s) && r.id !in IdsOf(s)
    ensures DistinctIds(s + [r]) && IdsOf(s + [r]) == IdsOf(s) + {r.id}
  {
    forall v | v in IdsOf(s) + {r.id} ensures v in IdsOf(s + [r]) {
      if v != r.id {
        var x :| x in s && x.id == v;
        assert x in s + [r];
      } else {
        assert r in s + [r];
      }
    }
  }

  lemma ReplacedKeepsDistinct(s: seq<Request>, i: nat, r: Request)
    requires i < |s| && DistinctIds(s) && r.id !in IdsOf(s)
    ensures DistinctIds(s[i := r]) && IdsOf(s[i := r]) <= IdsOf(s) + {r.id}
    ensures s[i].id !in IdsOf(s[i := r])
  {
    forall k | 0 <= k < |s| ensures s[k].id in IdsOf(s) {
      assert s[k] in s;
    }
  }
}
