/** What a resolved request is told: when each of the seven answers is given, and which counter rises. */
module ShadowQueueVerdicts {
  import opened Numbers
  import opened ShadowJobs
  import opened ShadowQueues
  import opened ShadowQueueInvariants

  /** The result names the request's own chunk, revisions, masks and surface. */
  predicate NamesTheRequest(r: Request, identity: Identity) {
    var c := r.capture;
    && identity.key == c.job.key && identity.generation == c.job.generation
    && identity.sourceRevision == c.job.sourceRevision && identity.worldRevision == c.job.worldRevision
    && identity.transitionMask == c.transitionMask && identity.visibilityMask == c.visibilityMask
    && identity.surface == c.surface
  }

  /** No other request the queue holds is for the same chunk at a greater generation or world revision. */
  ghost predicate NothingNewer(st: QueueState, r: Request) {
    forall q :: (q in st.queued || q in st.inFlight) && q.id != r.id && q.capture.job.key == r.capture.job.key ==>
      q.capture.job.generation <= r.capture.job.generation && q.capture.job.worldRevision <= r.capture.job.worldRevision
  }

  lemma FoundInFlight(st: QueueState, r: Request)
    requires DistinctIds(st.inFlight) && r in st.inFlight
    ensures
      var i := FirstIndex(st.inFlight, WithId(r.id));
      && i < |st.inFlight| && st.inFlight[i] == r
      && (forall q :: q in Dropped(st.inFlight, i) <==> q in st.inFlight && q.id != r.id)
  {
    var k :| 0 <= k < |st.inFlight| && st.inFlight[k] == r;
    var i := FirstIndex(st.inFlight, WithId(r.id));
    assert WithId(r.id)(st.inFlight[k]);
    assert i == k;
    DroppedKeepsDistinct(st.inFlight, i);
  }

  lemma LatestIsNothingNewer(st: QueueState, r: Request)
    requires DistinctIds(st.inFlight) && r in st.inFlight && r.id !in IdsOf(st.queued)
    ensures Latest(Resolved(st, FirstIndex(st.inFlight, WithId(r.id))), r.capture.job) <==> NothingNewer(st, r)
  {
    var i := FirstIndex(st.inFlight, WithId(r.id));
    FoundInFlight(st, r);
    var left := Dropped(st.inFlight, i);
    NoneNewer(st.queued, r.capture.job);
    NoneNewer(left, r.capture.job);
    hide FirstIndex, Dropped, DistinctIds;
    assert forall q :: q in st.queued ==> q.id != r.id;
  }

  lemma NoneNewer(s: seq<Request>, j: Job)
    ensures FirstIndex(s, NewerThan(j)) == |s|
       <==> forall q :: q in s && q.capture.job.key == j.key ==>
              q.capture.job.generation <= j.generation && q.capture.job.worldRevision <= j.worldRevision
  {
    var i := FirstIndex(s, NewerThan(j));
    if i == |s| {
      forall q | q in s && q.capture.job.key == j.key
        ensures q.capture.job.generation <= j.generation && q.capture.job.worldRevision <= j.worldRevision
      {
        assert !NewerThan(j)(q);
      }
    } else {
      assert NewerThan(j)(s[i]) && s[i] in s;
    }
  }

  /** A comparison result is told stale unless the queue runs, the revisions are current and nothing newer is held. */
  ghost predicate CompletionIsCurrent(st: QueueState, r: Request, source: U64, world: U64) {
    st.enabled && source == r.capture.job.sourceRevision && world == r.capture.job.worldRevision && NothingNewer(st, r)
  }

  ghost predicate ValidationIsCurrent(st: QueueState, r: Request, source: U64) {
    st.enabled && source == r.capture.job.sourceRevision && NothingNewer(st, r)
  }

  /** Only a request in flight is known; an unknown one changes nothing but its counter. */
  lemma UnknownIsCounted(st: QueueState, id: nat, identity: Identity, v: Verdict)
    requires id !in IdsOf(st.inFlight)
    ensures
      var res := Resolve(st, id, identity, v);
      && res.status == Unknown && res.request == None
      && res.state == st.(metrics := st.metrics.(unknown := st.metrics.unknown + 1))
  {
    forall k | 0 <= k < |st.inFlight| ensures !WithId(id)(st.inFlight[k]) {
      assert st.inFlight[k] in st.inFlight;
    }
  }

  /** A request in flight leaves it, whatever it is told; nothing else of the queue changes but one counter. */
  lemma ResolvedLeavesFlight(st: QueueState, r: Request, identity: Identity, v: Verdict)
    requires Inv(st) && r in st.inFlight
    ensures
      var res := Resolve(st, r.id, identity, v);
      && res.request == Some(r) && res.status != Unknown
      && (forall q :: q in res.state.inFlight <==> q in st.inFlight && q != r)
      && res.state == st.(inFlight := res.state.inFlight, metrics := res.state.metrics)
  {
    FoundInFlight(st, r);
    OthersHaveOtherIds(st, r);
    hide Inv, FirstIndex, Dropped, WithOutcome, Latest;
  }

  lemma OthersHaveOtherIds(st: QueueState, r: Request)
    requires Inv(st) && r in st.inFlight
    ensures forall q :: q in st.inFlight ==> (q.id == r.id <==> q == r)
    ensures r.id !in IdsOf(st.queued) && DistinctIds(st.inFlight)
  {
    assert r.id in IdsOf(st.inFlight);
    forall q | q in st.inFlight ensures q.id == r.id <==> q == r {
      var a :| 0 <= a < |st.inFlight| && st.inFlight[a] == q;
      var b :| 0 <= b < |st.inFlight| && st.inFlight[b] == r;
    }
    hide Bounded, Reserved, Accounted;
  }

  /** The answer to a comparison: wrong identity first, then stale, and only then what the comparison found. */
  lemma CompletionAnswers(st: QueueState, r: Request, identity: Identity, source: U64, world: U64, matched: bool)
    requires Inv(st) && r in st.inFlight
    ensures
      var status := Resolve(st, r.id, identity, Completion(source, world, matched)).status;
      var named, current := NamesTheRequest(r, identity), CompletionIsCurrent(st, r, source, world);
      && (status == WrongIdentity <==> !named)
      && (status == Stale <==> named && !current)
      && (status == Matched <==> named && current && matched)
      && (status == Mismatched <==> named && current && !matched)
  {
    FoundInFlight(st, r);
    OthersHaveOtherIds(st, r);
    LatestIsNothingNewer(st, r);
    hide Inv, FirstIndex, WithOutcome, Latest, NothingNewer, Resolved;
  }

  lemma ValidationAnswers(st: QueueState, r: Request, identity: Identity, source: U64)
    requires Inv(st) && r in st.inFlight
    ensures
      var status := Resolve(st, r.id, identity, Validation(source)).status;
      var named, current := NamesTheRequest(r, identity), ValidationIsCurrent(st, r, source);
      && (status == WrongIdentity <==> !named)
      && (status == Stale <==> named && !current)
      && (status == Ready <==> named && current)
  {
    FoundInFlight(st, r);
    OthersHaveOtherIds(st, r);
    LatestIsNothingNewer(st, r);
    hide Inv, FirstIndex, WithOutcome, Latest, NothingNewer, Resolved;
  }

  lemma RejectionAnswers(st: QueueState, r: Request, identity: Identity)
    requires Inv(st) && r in st.inFlight
    ensures
      var status := Resolve(st, r.id, identity, Rejection).status;
      && (status == WrongIdentity <==> !NamesTheRequest(r, identity))
      && (status == Rejected <==> NamesTheRequest(r, identity))
  {
    FoundInFlight(st, r);
    OthersHaveOtherIds(st, r);
    hide Inv, FirstIndex, WithOutcome, Latest, Resolved;
  }

  /** Besides the requests in flight, exactly the counter of the answer given moves, and by one. */
  lemma OneCounterRises(st: QueueState, r: Request, identity: Identity, v: Verdict)
    requires Inv(st) && r in st.inFlight
    ensures
      var res := Resolve(st, r.id, identity, v);
      var m := st.metrics.(inFlight := st.metrics.inFlight - 1);
      && (res.status == Matched ==> res.state.metrics == m.(matched := m.matched + 1))
      && (res.status == Mismatched ==> res.state.metrics == m.(mismatched := m.mismatched + 1))
      && (res.status == Stale && v.Completion? ==> res.state.metrics == m.(stale := m.stale + 1))
      && (res.status == Stale && !v.Completion? ==> res.state.metrics == m.(residentStale := m.residentStale + 1))
      && (res.status == WrongIdentity ==> res.state.metrics == m.(identityMismatches := m.identityMismatches + 1))
      && (res.status == Ready ==> res.state.metrics == m.(ready := m.ready + 1))
      && (res.status == Rejected ==> res.state.metrics == m.(rejected := m.rejected + 1))
  {
    CountedOutcome(st, r, identity, v);
    hide Resolve, Inv;
  }

  lemma CountedOutcome(st: QueueState, r: Request, identity: Identity, v: Verdict)
    requires Inv(st) && r in st.inFlight
    ensures
      var res := Resolve(st, r.id, identity, v);
      res.state.metrics == WithOutcome(st.metrics.(inFlight := st.metrics.inFlight - 1), res.status, !v.Completion?)
  {
    OthersHaveOtherIds(st, r);
    FoundInFlight(st, r);
    var i := FirstIndex(st.inFlight, WithId(r.id));
    FlightIsCounted(st, i);
    hide Inv, FirstIndex, Resolved, Judge, WithOutcome, WithId, IdsOf, DistinctIds;
  }

  lemma FlightIsCounted(st: QueueState, i: nat)
    requires Inv(st) && i < |st.inFlight|
    ensures Resolved(st, i).metrics == st.metrics.(inFlight := st.metrics.inFlight - 1)
  {
    hide Bounded, Reserved, Identified;
  }
}
