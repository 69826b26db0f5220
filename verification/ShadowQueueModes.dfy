/** Where the shadow queue's promises end: outside lossless mode, on a refused reservation, and on a full class. */
module ShadowQueueModes {
  import opened Numbers
  import opened ChunkKeys
  import opened ShadowJobs
  import opened ShadowQueues
  import opened ShadowQueueInvariants
  import opened ShadowQueueProperties

  ghost predicate Reachable(st: QueueState) {
    exists calls :: st == Run(IDLE, calls)
  }

  /** No reservation ever costs another request its place unless the new job outdates it. */
  ghost predicate KeepsUnrelatedWork(retain: bool, stage: Stage) {
    forall st, job, r ::
      (Reachable(st) && st.enabled && st.retain == retain && st.stage == stage
       && r in st.queued && r !in Reserve(st, job).state.queued)
      ==> Outdated(st, job, r)
  }

  const HERE: ChunkKey := ChunkKey(0, 0, 0, 0)
  const THERE: ChunkKey := ChunkKey(1, 0, 0, 0)
  const QUEUED_JOB: Job := Job(HERE, 0, 0, 0, 0, 0)
  const URGENT_JOB: Job := Job(THERE, 0, 0, 0, 0, 1)

  function PlainCapture(job: Job, stage: Stage): Capture {
    Capture(job, 0, 0, Terrain, stage, false, false, false, 0xFF, 0xFF, None, [0], [], None, None)
  }

  /** A queue of one place, taken. */
  function TakenQueue(retain: bool, stage: Stage): QueueState {
    Captured(Begin(IDLE, 1, retain, stage), PlainCapture(QUEUED_JOB, stage)).state
  }

  lemma TakenQueueHoldsOne(retain: bool, stage: Stage)
    ensures
      var st := TakenQueue(retain, stage);
      && st == Begin(IDLE, 1, retain, stage).(queued := st.queued, nextRequestId := 2, metrics := st.metrics)
      && st.metrics.reservedSlots == 0
      && st.queued == [Request(PlainCapture(QUEUED_JOB, stage), 1)]
  {
    hide Occupancy;
  }

  lemma TakenQueueIsReachable(retain: bool, stage: Stage)
    ensures Reachable(TakenQueue(retain, stage))
  {
    var first, second := BeginCall(1, retain, stage), CaptureCall(PlainCapture(QUEUED_JOB, stage));
    var begun := Next(IDLE, first);
    var taken := Next(begun, second);
    assert [first, second][1..] == [second] && [second][1..] == [];
    hide Begin, Captured;
    assert Run(taken, []) == taken;
    assert Run(begun, [second]) == taken;
    assert Run(IDLE, [first, second]) == taken;
  }

  lemma UrgentJobTakesThePlace(st: QueueState, r: Request, retain: bool, stage: Stage)
    requires st == Begin(IDLE, 1, retain, stage).(queued := [r], nextRequestId := 2, metrics := st.metrics)
    requires st.metrics.reservedSlots == 0 && r.capture.job == QUEUED_JOB && !(retain && stage == PreMeshField)
    ensures Reserve(st, URGENT_JOB).state.queued == []
  {
    var tried := Tried(st);
    assert !OverClassLimit(tried, URGENT_JOB);
    assert [r][1..] == [];
    assert Without([r], OfVersion(QUEUED_JOB)) == [] by {
      assert OfVersion(QUEUED_JOB)(r);
    }
    assert !VersionIn([], QUEUED_JOB);
    assert WithoutVersion(tried, QUEUED_JOB).queued == [];
    assert DropForRoom(tried, URGENT_JOB, 1, 0).queued == [];
  }

  /** Unrelated queued work is safe from other jobs' reservations exactly in lossless mode, whatever its documentation says
      of the others: there a higher priority alone takes the place of another key's request. */
  lemma UnrelatedWorkIsKeptExactlyInLosslessMode(retain: bool, stage: Stage)
    ensures KeepsUnrelatedWork(retain, stage) <==> retain && stage == PreMeshField
  {
    if retain && stage == PreMeshField {
      forall st, job, r | Reachable(st) && st.enabled && st.retain == retain && st.stage == stage
                          && r in st.queued && r !in Reserve(st, job).state.queued
        ensures Outdated(st, job, r)
      {
        var calls :| st == Run(IDLE, calls);
        EveryReachableQueueIsSound(calls);
        hide Inv, Reserve, Run, Outdated;
        LosslessDropsOnlyTheOutdated(st, ReserveCall(job), r);
      }
    } else {
      hide Reserve, TakenQueue, Begin;
      var st, r := TakenQueue(retain, stage), Request(PlainCapture(QUEUED_JOB, stage), 1);
      TakenQueueHoldsOne(retain, stage);
      TakenQueueIsReachable(retain, stage);
      UrgentJobTakesThePlace(st, r, retain, stage);
      BegunModes(retain, stage);
      assert r in st.queued && r !in Reserve(st, URGENT_JOB).state.queued && !Outdated(st, URGENT_JOB, r);
    }
  }

  lemma BegunModes(retain: bool, stage: Stage)
    ensures
      var st := Begin(IDLE, 1, retain, stage);
      st.enabled && st.retain == retain && st.stage == stage
  {}

  /** A reservation needs all its slots or none, but makes room one version at a time: refused for want of the second slot,
      it has already cost the outdated request its place. */
  lemma RefusalMayHaveDroppedWork(st: QueueState, old': Request, other: Request, job: Job)
    requires st.enabled && Lossless(st) && st.capacity == 2 && st.queued == [old', other]
    requires st.inFlight == [] && st.reservations == [] && st.metrics.reservedSlots == 0
    requires VersionSupersedes(job, old'.capture.job) && !VersionSupersedes(job, other.capture.job)
    requires CheaperToDrop([], old', other)
    ensures Reserve(st, job).id == 0 && Reserve(st, job).state.queued == [other]
  {
    var tried := Tried(st);
    var victim := old'.capture.job;
    assert !CheaperToDrop([], other, old');
    assert CheapestIndex([], st.queued, 1) == 0 && CheapestIndex([], st.queued, 2) == 0;
    KeepsTheOther(old', other, job);
    var next := WithoutVersion(tried, victim);
    assert next.queued == [other];
    assert CheapestIndex([], next.queued, 1) == 0;
    assert DropForRoom(next, job, 2, 1) == next;
    assert DropForRoom(tried, job, 2, 0) == next;
  }

  lemma KeepsTheOther(a: Request, b: Request, job: Job)
    requires VersionSupersedes(job, a.capture.job) && !VersionSupersedes(job, b.capture.job)
    ensures Without([a, b], OfVersion(a.capture.job)) == [b]
  {
    assert [a, b][1..] == [b] && [b][1..] == [];
    assert OfVersion(a.capture.job)(a) && !OfVersion(a.capture.job)(b);
    assert Without([b], OfVersion(a.capture.job)) == [b];
  }

  predicate Bare(c: Capture) {
    c.retainedPages == [] && c.terrainMesh.None? && c.waterMesh.None?
  }

  /** Without publication authority, an admitted capture is stored without its pages and meshes exactly when its class was
      not full (or it had none to begin with): a replacement on a full class skips that step. */
  lemma PagesAreStrippedUnlessTheClassIsFull(st: QueueState, c: Capture)
    requires !st.retain && Captured(st, c).ok
    ensures
      var next := Captured(st, c).state;
      && (exists r :: r in next.queued && r.id == st.nextRequestId)
      && (forall r :: r in next.queued && r.id == st.nextRequestId && r !in st.queued ==>
            r.capture.job == c.job && (Bare(r.capture) <==> !ClassIsFull(st, c) || Bare(c)))
  {
    var i := FirstIndex(st.queued, ReplaceableBackground(st.inFlight, c.job));
    var k := FirstIndex(st.queued, Replaceable(st.inFlight, c.job));
    hide ClassIsFull, Occupied, FirstIndex, Substantial;
    if ClassIsFull(st, c) {
      AdmittedAt(st, c, i);
    } else if Occupied(st) >= st.capacity {
      AdmittedAt(st, Retained(false, c), k);
    } else {
      AdmittedAt(st, Retained(false, c), |st.queued|);
    }
  }

  lemma AdmittedAt(st: QueueState, c: Capture, i: nat)
    requires i <= |st.queued|
    ensures
      var next := Admitted(st, c, i);
      && Request(c, st.nextRequestId) in next.queued
      && forall r :: r in next.queued ==> r in st.queued || r == Request(c, st.nextRequestId)
  {
    var next := Admitted(st, c, i);
    assert next.queued[i] == Request(c, st.nextRequestId);
  }
}
