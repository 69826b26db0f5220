/** What supersedes what, and which requests a reservation costs the shadow queue: the cheapest first. */
module ShadowQueueDrops {
  import opened ShadowJobs
  import opened ShadowQueues
  import opened ShadowQueueInvariants

  // ---- Superseding ----

  /** The later of two versions of one key at one source revision. */
  predicate Later(a: Job, b: Job) {
    a.worldRevision > b.worldRevision || (a.worldRevision == b.worldRevision && a.generation > b.generation)
  }

  /** A version gives way to a newer source revision whatever the key, and within one only to a later version of its key; a
      job of another key, or the same version again, may still outbid it by priority; in place it is replaced only by its key. */
  lemma SupersessionIsByVersion(a: Job, b: Job)
    ensures VersionSupersedes(a, b)
       <==> a.sourceRevision > b.sourceRevision || (a.sourceRevision == b.sourceRevision && a.key == b.key && Later(a, b))
    ensures JobSupersedes(a, b)
       <==> VersionSupersedes(a, b)
            || (a.sourceRevision == b.sourceRevision && (a.key != b.key || SameVersion(a, b)) && a.priority > b.priority)
    ensures SupersedesQueued(a, b) <==> a.key == b.key && VersionSupersedes(a, b)
  {}

  /** No version supersedes itself or is superseded in a circle. */
  lemma SupersessionIsAStrictOrder(a: Job, b: Job, c: Job)
    ensures SameVersion(a, b) ==> !VersionSupersedes(a, b)
    ensures VersionSupersedes(a, b) && VersionSupersedes(b, c) ==> VersionSupersedes(a, c)
    ensures VersionSupersedes(a, b) ==> !VersionSupersedes(b, a)
  {}

  // ---- Dropping ----

  /** Lower in priority, or as old or older in the same priority. */
  predicate NoDearer(a: Job, b: Job) {
    a.priority < b.priority || (a.priority == b.priority && a.sequence <= b.sequence)
  }

  /** The request dropped first is no dearer than any other that may be dropped. */
  lemma {:induction false} CheapestIsLeast(inFlight: seq<Request>, queued: seq<Request>, n: nat, k: nat)
    requires k < n <= |queued|
    ensures
      var best := queued[CheapestIndex(inFlight, queued, n)].capture.job;
      !VersionIn(inFlight, queued[k].capture.job) ==> !VersionIn(inFlight, best) && NoDearer(best, queued[k].capture.job)
    decreases n
  {
    hide VersionIn;
    if n > 1 {
      var best := CheapestIndex(inFlight, queued, n - 1);
      CheapestIsLeast(inFlight, queued, n - 1, best);
      if k < n - 1 {
        CheapestIsLeast(inFlight, queued, n - 1, k);
      }
    }
  }

  /** Some request of the version was no dearer than q. */
  ghost predicate WentBefore(queued: seq<Request>, r: Request, q: Request) {
    exists v :: v in queued && SameVersion(v.capture.job, r.capture.job) && NoDearer(v.capture.job, q.capture.job)
  }

  lemma MoreWentBefore(queued: seq<Request>, more: seq<Request>, r: Request, q: Request)
    requires WentBefore(queued, r, q) && forall v :: v in queued ==> v in more
    ensures WentBefore(more, r, q)
  {}

  lemma {:induction false} PassDropsTheCheapest(st: QueueState, job: Job, required: int, released: nat, r: Request, q: Request)
    requires r in st.queued && r !in DropForRoom(st, job, required, released).queued
    requires q in DropForRoom(st, job, required, released).queued && !VersionIn(st.inFlight, q.capture.job)
    ensures WentBefore(st.queued, r, q)
    decreases |st.queued|
  {
    hide VersionIn, MayDrop, WithoutVersion, NoDearer, CheapestIndex, SameVersion, GaveWay, DistinctIds, WentBefore;
    var best := CheapestIndex(st.inFlight, st.queued, |st.queued|);
    var victim := st.queued[best].capture.job;
    var next := WithoutVersion(st, victim);
    WithoutVersionShrinks(st, victim);
    DropForRoomShrinks(st, job, required, released);
    var k :| 0 <= k < |st.queued| && st.queued[k] == q;
    CheapestIsLeast(st.inFlight, st.queued, |st.queued|, k);
    if r in next.queued {
      PassDropsTheCheapest(next, job, required, released + (|st.queued| - |next.queued|), r, q);
      MoreWentBefore(next.queued, st.queued, r, q);
    } else {
      VictimWentBefore(st.queued, best, r, q);
    }
  }

  lemma VictimWentBefore(queued: seq<Request>, best: nat, r: Request, q: Request)
    requires best < |queued| && SameVersion(r.capture.job, queued[best].capture.job)
    requires NoDearer(queued[best].capture.job, q.capture.job)
    ensures WentBefore(queued, r, q)
  {
    assert queued[best] in queued;
  }

  /** A request that leaves for a reservation was outdated by its job, or had a sibling no dearer than any request that
      stays and is not in flight. */
  lemma ReservationDropsTheCheapest(st: QueueState, job: Job, r: Request, q: Request)
    requires Inv(st) && r in st.queued && r !in Reserve(st, job).state.queued
    requires q in Reserve(st, job).state.queued && !VersionIn(st.inFlight, q.capture.job)
    ensures Outdated(st, job, r) || WentBefore(st.queued, r, q)
  {
    hide Inv, VersionIn, MakeClassRoom, OverClassLimit, Outdated, GaveWay, WentBefore, Occupied, DropForRoom, SlotsFor;
    TryingKeepsInv(st);
    var tried := Tried(st);
    assert Outdated(tried, job, r) == Outdated(st, job, r) by { CountersChangeNothing(st, job, r); }
    MadeClassRoom(tried, job);
    var classed := MakeClassRoom(tried, job);
    if r in classed.queued {
      PassDropsTheCheapest(classed, job, SlotsFor(classed.capacity) - (classed.capacity - Occupied(classed)), 0, r, q);
      MoreWentBefore(classed.queued, st.queued, r, q);
    }
  }

  lemma CountersChangeNothing(st: QueueState, job: Job, r: Request)
    ensures Outdated(Tried(st), job, r) == Outdated(st, job, r)
  {}
}
