/** What the counters of the shadow queue tell: every slot granted is accounted for, and each call counts what it did. */
module ShadowQueueLedger {
  import opened ShadowJobs
  import opened ShadowQueues
  import opened ShadowQueueInvariants

  /** Reservations granted since the last start. */
  function Grants(st: QueueState): int { st.nextReservationId - 1 }

  /** Every attempt was granted or rejected, and every slot granted is still reserved, was used for a capture or released. */
  ghost predicate Balanced(st: QueueState) {
    && st.metrics.attempts == st.metrics.reservationRejections + Grants(st)
    && (st.enabled ==>
          && (if st.capacity >= 2 then 2 * Grants(st) else Grants(st))
             == st.metrics.reservedSlots + st.metrics.reservedCaptures + st.metrics.releasedSlots
          && st.metrics.preMeshCaptures == if st.stage == PreMeshField then st.metrics.captured else 0)
  }

  // ---- Reserving ----

  /** Requests may have left the queue, and are counted; nothing else happened. */
  predicate Dropping(st: QueueState, next: QueueState) {
    OnlyDropped(st, next) && next.metrics.superseded == st.metrics.superseded + |st.queued| - |next.queued|
  }

  lemma PassesOnlyDrop(st: QueueState, job: Job)
    requires Inv(st)
    ensures Inv(MakeClassRoom(st, job)) && Dropping(st, MakeClassRoom(st, job)) && Dropping(st, MakeRoom(st, job))
  {
    hide Inv, MakeClassRoom, MakeRoom, Outdated, GaveWay;
    MadeClassRoom(st, job);
    MadeRoom(st, job);
    DroppedAreCounted(st, job);
  }

  lemma DroppingTwice(a: QueueState, b: QueueState, c: QueueState)
    requires Dropping(a, b) && Dropping(b, c)
    ensures Dropping(a, c)
  {}

  lemma DroppedAreCounted(st: QueueState, job: Job)
    ensures MakeClassRoom(st, job).metrics.superseded == st.metrics.superseded + |st.queued| - |MakeClassRoom(st, job).queued|
    ensures MakeRoom(st, job).metrics.superseded == st.metrics.superseded + |st.queued| - |MakeRoom(st, job).queued|
  {
    hide DropBackground, DropForRoom, OverClassLimit, Occupancy, ClassLimit, SlotsFor, DistinctIds, Occupied, GaveWay, Outdated;
    DropBackgroundShrinks(st, job, Occupancy(st, Coverage(job)) + SlotsFor(st.capacity) - ClassLimit(st.capacity, Coverage(job)), 0);
    DropForRoomShrinks(st, job, SlotsFor(st.capacity) - (st.capacity - Occupied(st)), 0);
  }

  /** The reservation, or its rejection, is all that is counted besides the requests that left the queue. */
  predicate CountedReserve(st: QueueState, job: Job, g: Granted) {
    var slots := if st.capacity >= 2 then 2 else 1;
    var m := st.metrics.(attempts := st.metrics.attempts + 1, queued := g.state.metrics.queued,
                         superseded := g.state.metrics.superseded);
    var dropped := st.(queued := g.state.queued, metrics := m);
    && m.superseded == st.metrics.superseded + |st.queued| - |g.state.queued|
    && (g.id != 0 ==> g.id == st.nextReservationId)
    && g.state == (
         if g.id == 0 then dropped.(metrics := m.(reservationRejections := m.reservationRejections + 1))
         else dropped.(nextReservationId := st.nextReservationId + 1,
                       reservations := st.reservations + [Reservation(g.id, slots, job)],
                       metrics := m.(reservedSlots := m.reservedSlots + slots)))
  }

  lemma GrantIsCounted(st: QueueState, dropped: QueueState, job: Job)
    requires Dropping(Tried(st), dropped) && st.nextReservationId > 0
    ensures CountedReserve(st, job, GrantOrRefuse(dropped, job)) && CountedReserve(st, job, Refused(dropped))
  {
    hide Occupied;
  }

  /** Every attempt is counted, and either a rejection or the slots it was granted. */
  lemma ReserveIsCounted(st: QueueState, job: Job)
    requires Inv(st)
    ensures CountedReserve(st, job, Reserve(st, job))
  {
    assert st.nextReservationId > 0;
    var tried := Tried(st);
    assert Dropping(tried, tried);
    hide Inv, MakeClassRoom, MakeRoom, OverClassLimit, CountedReserve, GrantOrRefuse, Refused, Dropping;
    TryingKeepsInv(st);
    PassesOnlyDrop(tried, job);
    var classed := MakeClassRoom(tried, job);
    PassesOnlyDrop(classed, job);
    DroppingTwice(tried, classed, MakeRoom(classed, job));
    GrantIsCounted(st, tried, job);
    GrantIsCounted(st, classed, job);
    GrantIsCounted(st, MakeRoom(classed, job), job);
  }

  // ---- Releasing ----

  lemma OnlyOneLeaves(rs: seq<Reservation>, r: Reservation, limit: nat)
    requires Reserved(rs, limit) && r in rs
    ensures
      var i := ReservationIndex(rs, r.id);
      i < |rs| && rs[i] == r && r.id != 0 && forall q :: q in rs[..i] + rs[i + 1..] <==> q in rs && q != r
  {
    var i := ReservationIndex(rs, r.id);
    var k :| 0 <= k < |rs| && rs[k] == r;
    hide ReservationIndex;
    assert i == k;
    forall q | q in rs && q != r ensures q in rs[..i] + rs[i + 1..] {
      var j :| 0 <= j < |rs| && rs[j] == q;
      assert if j < i then q in rs[..i] else q in rs[i + 1..];
    }
  }

  /** Releasing ends the reservation with the identity and returns exactly the slots it had left. */
  lemma ReleaseIsCounted(st: QueueState, r: Reservation)
    requires Inv(st) && r in st.reservations
    ensures
      var next := Released(st, r.id);
      && (forall q :: q in next.reservations <==> q in st.reservations && q != r)
      && next == st.(reservations := next.reservations,
                     metrics := st.metrics.(reservedSlots := st.metrics.reservedSlots - r.remaining,
                                            releasedSlots := st.metrics.releasedSlots + r.remaining))
  {
    assert Reserved(st.reservations, st.nextReservationId);
    hide Inv, Reserved, ReservationIndex;
    OnlyOneLeaves(st.reservations, r, st.nextReservationId);
  }

  /** An identity no reservation has releases nothing. */
  lemma UnknownReleasesNothing(st: QueueState, id: nat)
    requires forall r :: r in st.reservations ==> r.id != id
    ensures Released(st, id) == st
  {
    forall k | 0 <= k < |st.reservations| ensures st.reservations[k].id != id {
      assert st.reservations[k] in st.reservations;
    }
  }

  // ---- Capturing ----

  /** A capture joined or took a place, and that is all: counted by its stage and by whether its mesh was left out; whoever
      lost a place is superseded. */
  predicate CountedAdmission(st: QueueState, c: Capture, next: QueueState) {
    var m := st.metrics;
    |next.queued| <= |st.queued| + 1 &&
    next == st.(
      queued := next.queued, nextRequestId := st.nextRequestId + 1,
      metrics := m.(queued := next.metrics.queued, captured := m.captured + 1,
                    superseded := m.superseded + (|st.queued| + 1 - |next.queued|),
                    preMeshCaptures := m.preMeshCaptures + (if c.stage == PreMeshField then 1 else 0),
                    cpuOmittedCaptures := m.cpuOmittedCaptures + (if c.cpuMeshOmitted then 1 else 0)))
  }

  lemma AdmittedIsCounted(st: QueueState, retain: bool, c: Capture, i: nat)
    requires i <= |st.queued| && c.stage == st.stage
    ensures CountedAdmission(st, c, Admitted(st, c, i)) && CountedAdmission(st, c, Admitted(st, Retained(retain, c), i))
  {}

  /** A capture that is not admitted is counted if the queue was saturated, and changes nothing else. */
  lemma CaptureIsCounted(st: QueueState, c: Capture)
    ensures
      var a := Captured(st, c);
      if a.ok then c.stage == st.stage && CountedAdmission(st, c, a.state)
      else
        a.state == if (c.records != [] || c.retainedPages != []) && st.enabled && c.stage == st.stage
                   then st.(metrics := st.metrics.(capacityRejections := st.metrics.capacityRejections + 1)) else st
  {
    hide ClassIsFull, FirstIndex, Occupied, Admitted, Retained, CountedAdmission;
    if c.stage == st.stage {
      AdmittedIsCounted(st, st.retain, c, FirstIndex(st.queued, ReplaceableBackground(st.inFlight, c.job)));
      AdmittedIsCounted(st, st.retain, c, FirstIndex(st.queued, Replaceable(st.inFlight, c.job)));
      AdmittedIsCounted(st, st.retain, c, |st.queued|);
    }
  }

  /** So is one admitted on a reservation, which loses a slot; any other is a failure and changes nothing else. */
  lemma ReservedCaptureIsCounted(st: QueueState, id: nat, c: Capture)
    ensures
      var a, m := CaptureReserved(st, id, c), st.metrics;
      var spent := st.(reservations := a.state.reservations,
                       metrics := m.(reservedSlots := m.reservedSlots - 1, reservedCaptures := m.reservedCaptures + 1));
      if a.ok then c.stage == st.stage && CountedAdmission(spent, c, a.state)
      else a.state == st.(metrics := m.(reservedFailures := m.reservedFailures + 1))
  {
    hide ReservationIndex, FirstIndex, SameVersion, Substantial, Redeemed, Admitted, Retained, CountedAdmission;
    if Redeemable(st, id, c) {
      var spent := Spent(st, ReservationIndex(st.reservations, id));
      AdmittedIsCounted(spent, st.retain, c, FirstIndex(st.queued, Replaceable(st.inFlight, c.job)));
      AdmittedKeepsReservations(spent, Retained(st.retain, c), FirstIndex(st.queued, Replaceable(st.inFlight, c.job)));
    }
  }

  lemma AdmittedKeepsReservations(st: QueueState, c: Capture, i: nat)
    requires i <= |st.queued|
    ensures Admitted(st, c, i).reservations == st.reservations
  {}

  // ---- Taking work ----

  /** Taking another request than the first counts as urgent; the outdated ones for its key count as coalesced. */
  lemma PopIsCounted(st: QueueState, interactionOnly: bool)
    requires Inv(st)
    ensures
      var p := Pop(st, interactionOnly);
      var m, n := st.metrics, p.state.metrics;
      match p.request
      case None => p.state == st
      case Some(r) =>
        var coalesced := |st.queued| - 1 - |p.state.queued|;
        && |st.queued| > 0 && coalesced >= 0
        && p.state == st.(queued := p.state.queued, inFlight := p.state.inFlight, metrics := n)
        && n == m.(queued := |p.state.queued|, inFlight := |p.state.inFlight|, superseded := m.superseded + coalesced,
                   dequeueSuperseded := m.dequeueSuperseded + coalesced,
                   priorityDequeues := m.priorityDequeues + (if r == st.queued[0] then 0 else 1))
  {
    assert DistinctIds(st.queued);
    hide Inv, Selected, Without, Replaceable, Moved, DistinctIds;
    var selected := Selected(st.queued, interactionOnly, |st.queued|);
    if st.enabled && selected.Some? {
      var i := selected.value;
      var kept := Without(Dropped(st.queued, i), Replaceable(st.inFlight, st.queued[i].capture.job));
      assert |Dropped(st.queued, i)| == |st.queued| - 1;
      MoveIsCounted(st, i, kept);
    }
  }

  lemma MoveIsCounted(st: QueueState, i: nat, kept: seq<Request>)
    requires i < |st.queued| && |kept| < |st.queued| && DistinctIds(st.queued)
    ensures
      var m, next, coalesced := st.metrics, Moved(st, i, kept), |st.queued| - 1 - |kept|;
      && next == st.(queued := kept, inFlight := next.inFlight, metrics := next.metrics)
      && next.metrics
         == m.(queued := |kept|, inFlight := |next.inFlight|, superseded := m.superseded + coalesced,
               dequeueSuperseded := m.dequeueSuperseded + coalesced,
               priorityDequeues := m.priorityDequeues + (if st.queued[i] == st.queued[0] then 0 else 1))
  {}

  // ---- Every call keeps the ledger ----

  lemma ReleaseKeepsLedger(st: QueueState, id: nat)
    requires Inv(st) && Balanced(st)
    ensures Balanced(Released(st, id))
  {
    hide Inv, Released;
    if r :| r in st.reservations && r.id == id {
      ReleaseIsCounted(st, r);
    } else {
      UnknownReleasesNothing(st, id);
    }
  }

  lemma CaptureKeepsLedger(st: QueueState, c: Capture)
    requires Balanced(st)
    ensures Balanced(Captured(st, c).state)
  {
    hide Captured;
    CaptureIsCounted(st, c);
  }

  lemma ResolveKeepsLedger(st: QueueState, id: nat, identity: Identity, v: Verdict)
    requires Balanced(st)
    ensures Balanced(Resolve(st, id, identity, v).state)
  {
    hide FirstIndex, WithId, Judge;
  }

  lemma CallKeepsLedger(st: QueueState, call: Call)
    requires Inv(st) && Balanced(st)
    ensures Balanced(Next(st, call))
  {
    hide Inv, Reserve, CaptureReserved, Released, Captured, Pop, Resolve;
    match call
    case BeginCall(capacity, retain, stage) =>
    case EndCall =>
    case ReserveCall(job) => ReserveIsCounted(st, job);
    case ReservedCaptureCall(id, c) => ReservedCaptureIsCounted(st, id, c);
    case ReleaseCall(id) => ReleaseKeepsLedger(st, id);
    case CaptureCall(c) => CaptureKeepsLedger(st, c);
    case PopCall(interactionOnly) => PopIsCounted(st, interactionOnly);
    case ResolveCall(id, identity, v) => ResolveKeepsLedger(st, id, identity, v);
  }

  lemma {:induction false} RunKeepsLedger(st: QueueState, calls: seq<Call>)
    requires Inv(st) && Balanced(st)
    ensures Balanced(Run(st, calls))
    decreases |calls|
  {
    hide Inv, Balanced, Next;
    if |calls| > 0 {
      CallKeepsInv(st, calls[0]);
      CallKeepsLedger(st, calls[0]);
      RunKeepsLedger(Next(st, calls[0]), calls[1..]);
    }
  }

  /** After any calls: every attempt to reserve was granted or rejected, every slot granted since the start is reserved,
      used or released, and all captures are of the queue's stage. */
  lemma EveryReachableLedgerBalances(calls: seq<Call>)
    ensures Balanced(Run(IDLE, calls))
  {
    InitiallyInv();
    RunKeepsLedger(IDLE, calls);
  }
}
