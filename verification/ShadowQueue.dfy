/** The shadow queue itself: every public method runs under one lock and is one step of the queue. */
module GpuMeshingShadow {
  import opened Numbers
  import opened ShadowJobs
  import Q = ShadowQueues
  import Invariants = ShadowQueueInvariants

  class ShadowQueue {
    var enabled: bool
    var retain: bool
    var stage: Stage
    var capacity: nat
    var nextRequestId: nat
    var nextReservationId: nat
    var queued: seq<Request>
    var inFlight: seq<Request>
    var reservations: seq<Q.Reservation>
    var metrics: Q.Metrics

    function State(): Q.QueueState
      reads this
    {
      Q.QueueState(enabled, retain, stage, capacity, nextRequestId, nextReservationId, queued, inFlight, reservations, metrics)
    }

    ghost predicate Valid()
      reads this
    {
      Invariants.Inv(State())
    }

    constructor ()
      ensures Valid() && State() == Q.IDLE
    {
      enabled, retain, stage, capacity := false, false, PostMeshAuthority, 0;
      nextRequestId, nextReservationId := 1, 1;
      queued, inFlight, reservations, metrics := [], [], [], Q.ZERO;
      new;
      Invariants.InitiallyInv();
    }

    method Begin(capacity: nat, retain: bool, stage: Stage) returns (ok: bool)
      requires Valid()
      modifies this
      ensures Valid() && State() == Q.Begin(old(State()), capacity, retain, stage)
      ensures ok <==> 0 < capacity <= 16
    {
      if capacity == 0 || capacity > 16 { return false; }
      hide Invariants.Inv;
      ghost var before := State();
      Restart(capacity, retain, stage);
      Invariants.CallKeepsInv(before, Q.BeginCall(capacity, retain, stage));
      return true;
    }

    method Restart(capacity: nat, retain: bool, stage: Stage)
      requires 0 < capacity <= 16
      modifies this
      ensures State() == Q.Begin(old(State()), capacity, retain, stage)
    {
      enabled, this.retain, this.stage, this.capacity := true, retain, stage, capacity;
      nextRequestId, nextReservationId := 1, 1;
      queued, inFlight, reservations, metrics := [], [], [], Q.ZERO;
    }

    method End()
      requires Valid()
      modifies this
      ensures Valid() && State() == Q.End(old(State()))
    {
      hide Invariants.Inv;
      ghost var before := State();
      Clear();
      Invariants.CallKeepsInv(before, Q.EndCall);
    }

    method Clear()
      modifies this
      ensures State() == Q.End(old(State()))
    {
      enabled, retain, stage, capacity := false, false, PostMeshAuthority, 0;
      queued, inFlight, reservations := [], [], [];
      metrics := metrics.(queued := 0, inFlight := 0, reservedSlots := 0);
    }

    // ---- Occupancy ----

    static method CountRequests(s: seq<Request>, coverage: bool) returns (n: nat)
      ensures n == Q.RequestCount(s, coverage)
    {
      n := 0;
      for i := 0 to |s|
        invariant n == Q.RequestCount(s[..i], coverage)
      {
        assert s[..i + 1][..i] == s[..i];
        if Q.Background(s[i].capture, coverage) { n := n + 1; }
      }
      assert s[..|s|] == s;
    }

    method ClassOccupancy(coverage: bool) returns (occupied: nat)
      ensures occupied == Q.Occupancy(State(), coverage)
    {
      var waiting := CountRequests(queued, coverage);
      var flying := CountRequests(inFlight, coverage);
      occupied := waiting + flying;
      for i := 0 to |reservations|
        invariant occupied == waiting + flying + Q.SlotCount(reservations[..i], coverage)
      {
        assert reservations[..i + 1][..i] == reservations[..i];
        var r := reservations[i];
        if !Interaction(r.job) && (coverage || !Coverage(r.job)) { occupied := occupied + r.remaining; }
      }
      assert reservations[..|reservations|] == reservations;
    }

    /** Whether the version is waiting, in flight, or has a place reserved for it. */
    method HasJobVersion(j: Job) returns (found: bool)
      ensures found <==> Q.HasVersion(State(), j)
    {
      if VersionIn(queued, j) || VersionIn(inFlight, j) { return true; }
      for i := 0 to |reservations|
        invariant forall k :: 0 <= k < i ==> !SameVersion(reservations[k].job, j)
      {
        if SameVersion(reservations[i].job, j) { return true; }
      }
      return false;
    }

    // ---- Reserving ----

    method EraseVersion(j: Job) returns (removed: nat)
      modifies this`queued, this`metrics
      ensures State() == Q.WithoutVersion(old(State()), j) && removed == old(|queued|) - |queued| && |queued| <= old(|queued|)
    {
      var before := |queued|;
      queued := Without(queued, OfVersion(j));
      removed := before - |queued|;
      metrics := metrics.(superseded := metrics.superseded + removed);
    }

    method DropBackgroundVersions(job: Job, required: int)
      modifies this`queued, this`metrics
      ensures State() == Q.DropBackground(old(State()), job, required, 0)
    {
      hide Q.WithoutVersion;
      var released: nat := 0;
      while released < required
        invariant Q.DropBackground(State(), job, required, released) == Q.DropBackground(old(State()), job, required, 0)
        decreases |queued|
      {
        var i := FirstIndex(queued, Q.BackgroundVictim(inFlight, job));
        if i == |queued| { break; }
        VictimLeaves(State(), i);
        var removed := EraseVersion(queued[i].capture.job);
        if removed == 0 { break; }
        released := released + removed;
      }
    }

    /** The first queued request that is cheapest to drop. */
    method MinElement() returns (best: nat)
      requires |queued| > 0
      ensures best < |queued| && best == Q.CheapestIndex(inFlight, queued, |queued|)
    {
      best := 0;
      for i := 1 to |queued|
        invariant best < i && best == Q.CheapestIndex(inFlight, queued, i)
      {
        if Q.CheaperToDrop(inFlight, queued[i], queued[best]) { best := i; }
      }
    }

    method DropVersionsForRoom(job: Job, required: int)
      modifies this`queued, this`metrics
      ensures State() == Q.DropForRoom(old(State()), job, required, 0)
    {
      hide Q.WithoutVersion, Q.CheapestIndex, Q.MayDrop;
      var released: nat := 0;
      while released < required && |queued| > 0
        invariant Q.DropForRoom(State(), job, required, released) == Q.DropForRoom(old(State()), job, required, 0)
        decreases |queued|
      {
        var i := MinElement();
        var victim := queued[i].capture.job;
        if VersionIn(inFlight, victim) || !Q.MayDrop(retain && stage == PreMeshField, job, victim) { break; }
        VictimLeaves(State(), i);
        var removed := EraseVersion(victim);
        if removed == 0 { break; }
        released := released + removed;
      }
    }

    method MakeClassRoom(job: Job) returns (over: bool)
      modifies this`queued, this`metrics
      ensures State() == Q.MakeClassRoom(old(State()), job) && over == Q.OverClassLimit(State(), job)
    {
      var slots := Q.SlotsFor(capacity);
      var limit := Q.ClassLimit(capacity, Coverage(job));
      var occupancy := ClassOccupancy(Coverage(job));
      hide Q.Occupancy, Q.DropBackground;
      if Q.InteractionReserve(capacity) == 0 || Interaction(job) || occupancy + slots <= limit { return false; }
      DropBackgroundVersions(job, occupancy + slots - limit);
      metrics := metrics.(queued := |queued|);
      occupancy := ClassOccupancy(Coverage(job));
      over := occupancy + slots > limit;
      KeepsCapacity(old(State()), job, occupancy + slots - limit);
    }

    method MakeRoom(job: Job)
      modifies this`queued, this`metrics
      ensures State() == Q.MakeRoom(old(State()), job)
    {
      hide Q.DropForRoom;
      var slots := Q.SlotsFor(capacity);
      var occupied := |queued| + |inFlight| + metrics.reservedSlots;
      if occupied <= capacity && slots > capacity - occupied {
        DropVersionsForRoom(job, slots - (capacity - occupied));
        metrics := metrics.(queued := |queued|);
      }
    }

    method Refuse()
      modifies this`metrics
      ensures State() == Q.Refused(old(State())).state
    {
      metrics := metrics.(reservationRejections := metrics.reservationRejections + 1);
    }

    method ReserveCaptureSlots(job: Job) returns (id: nat)
      requires Valid()
      modifies this
      ensures Valid() && Q.Granted(State(), id) == Q.Reserve(old(State()), job)
    {
      hide Invariants.Inv, Q.MakeClassRoom, Q.MakeRoom, Q.OverClassLimit;
      Invariants.ReserveKeepsInv(State(), job);
      metrics := metrics.(attempts := metrics.attempts + 1);
      if !enabled {
        Refuse();
        return 0;
      }
      var over := MakeClassRoom(job);
      if over {
        Refuse();
        return 0;
      }
      MakeRoom(job);
      var slots := Q.SlotsFor(capacity);
      var occupied := |queued| + |inFlight| + metrics.reservedSlots;
      if occupied > capacity || slots > capacity - occupied {
        Refuse();
        return 0;
      }
      id := nextReservationId;
      nextReservationId := nextReservationId + 1;
      reservations := reservations + [Q.Reservation(id, slots, job)];
      metrics := metrics.(reservedSlots := metrics.reservedSlots + slots);
    }

    method ReleaseCaptureSlots(id: nat)
      requires Valid()
      modifies this
      ensures Valid() && State() == Q.Released(old(State()), id)
    {
      Invariants.ReleaseKeepsInv(State(), id);
      hide Invariants.Inv;
      if id == 0 { return; }
      var i := Q.ReservationIndex(reservations, id);
      if i == |reservations| { return; }
      var n := reservations[i].remaining;
      metrics := metrics.(reservedSlots := metrics.reservedSlots - n, releasedSlots := metrics.releasedSlots + n);
      reservations := reservations[..i] + reservations[i + 1..];
    }

    // ---- Capturing ----

    /** Gives the capture an identity and stores it at place i, or at the end. */
    method Admit(c: Capture, i: nat)
      requires i <= |queued|
      modifies this`queued, this`metrics, this`nextRequestId
      ensures State() == Q.Admitted(old(State()), c, i)
    {
      var request := Request(c, nextRequestId);
      nextRequestId := nextRequestId + 1;
      if i < |queued| {
        queued := queued[i := request];
        metrics := metrics.(superseded := metrics.superseded + 1);
      } else {
        queued := queued + [request];
      }
      metrics := metrics.(captured := metrics.captured + 1, queued := |queued|);
      if stage == PreMeshField {
        metrics := metrics.(preMeshCaptures := metrics.preMeshCaptures + 1);
      }
      if c.cpuMeshOmitted {
        metrics := metrics.(cpuOmittedCaptures := metrics.cpuOmittedCaptures + 1);
      }
    }

    /** Takes one slot from reservation i, which disappears with its last one. */
    method Spend(i: nat)
      requires i < |reservations| && reservations[i].remaining != 0
      modifies this`reservations, this`metrics
      ensures State() == Q.Spent(old(State()), i)
    {
      metrics := metrics.(reservedSlots := metrics.reservedSlots - 1, reservedCaptures := metrics.reservedCaptures + 1);
      if reservations[i].remaining == 1 {
        reservations := reservations[..i] + reservations[i + 1..];
      } else {
        reservations := reservations[i := reservations[i].(remaining := reservations[i].remaining - 1)];
      }
    }

    method CaptureReserved(id: nat, c: Capture) returns (ok: bool)
      requires Valid()
      modifies this
      ensures Valid() && Q.Answer(State(), ok) == Q.CaptureReserved(old(State()), id, c)
    {
      Invariants.CaptureReservedKeepsInv(State(), id, c);
      hide Invariants.Inv, Q.Admitted, Q.Spent, SameVersion, Q.Retained;
      var i := Q.ReservationIndex(reservations, id);
      if id == 0 || (c.records == [] && c.retainedPages == []) || !enabled || c.stage != stage || i == |reservations|
         || reservations[i].remaining == 0 || !SameVersion(reservations[i].job, c.job) {
        metrics := metrics.(reservedFailures := metrics.reservedFailures + 1);
        return false;
      }
      var kept := Q.Retained(retain, c);
      var replace := FirstIndex(queued, Q.Replaceable(inFlight, c.job));
      hide Q.Replaceable, FirstIndex;
      Spend(i);
      Admit(kept, replace);
      return true;
    }

    /** Stores the capture in the place of request i, if there is one to replace. */
    method Replace(c: Capture, i: nat) returns (ok: bool)
      requires i <= |queued|
      modifies this`queued, this`metrics, this`nextRequestId
      ensures Q.Answer(State(), ok) == Q.Replacing(old(State()), c, i)
    {
      hide Q.Admitted;
      if i == |queued| {
        metrics := metrics.(capacityRejections := metrics.capacityRejections + 1);
        return false;
      }
      Admit(c, i);
      return true;
    }

    method Capture(c: Capture) returns (ok: bool)
      requires Valid()
      modifies this
      ensures Valid() && Q.Answer(State(), ok) == Q.Captured(old(State()), c)
    {
      Invariants.CaptureKeepsInv(State(), c);
      hide Invariants.Inv, Q.Admitted, Q.Occupancy, Q.ClassLimit, Q.Replacing, FirstIndex, Q.Retained;
      if (c.records == [] && c.retainedPages == []) || !enabled || c.stage != stage { return false; }
      var coverage := Coverage(c.job);
      var occupancy := ClassOccupancy(coverage);
      if Q.InteractionReserve(capacity) != 0 && !c.incremental && occupancy >= Q.ClassLimit(capacity, coverage) {
        ok := Replace(c, FirstIndex(queued, Q.ReplaceableBackground(inFlight, c.job)));
        return;
      }
      var kept := Q.Retained(retain, c);
      if |queued| + |inFlight| + metrics.reservedSlots >= capacity {
        ok := Replace(kept, FirstIndex(queued, Q.Replaceable(inFlight, c.job)));
        return;
      }
      Admit(kept, |queued|);
      return true;
    }

    // ---- Taking work ----

    method Select(interactionOnly: bool) returns (selected: Option<nat>)
      ensures selected == Q.Selected(queued, interactionOnly, |queued|)
    {
      selected := None;
      for i := 0 to |queued|
        invariant selected == Q.Selected(queued, interactionOnly, i)
      {
        if interactionOnly && !queued[i].capture.incremental
           && queued[i].capture.job.priority < VISIBILITY_COVERAGE_PRIORITY {
          continue;
        }
        if selected.None? || Precedes(queued[i].capture.job, queued[selected.value].capture.job) {
          selected := Some(i);
        }
      }
    }

    method MoveToFlight(i: nat, kept: seq<Request>)
      requires i < |queued| && |kept| < |queued|
      modifies this`queued, this`inFlight, this`metrics
      ensures State() == Q.Moved(old(State()), i, kept)
    {
      var coalesced := |queued| - 1 - |kept|;
      inFlight := inFlight + [Q.Tracked(queued[i])];
      queued := kept;
      if i != 0 {
        metrics := metrics.(priorityDequeues := metrics.priorityDequeues + 1);
      }
      metrics := metrics.(dequeueSuperseded := metrics.dequeueSuperseded + coalesced,
                          superseded := metrics.superseded + coalesced);
      metrics := metrics.(queued := |queued|, inFlight := |inFlight|);
    }

    method Pop(interactionOnly: bool) returns (request: Option<Request>)
      requires Valid()
      modifies this
      ensures Valid() && Q.Popped(State(), request) == Q.Pop(old(State()), interactionOnly)
    {
      Invariants.PopKeepsInv(State(), interactionOnly);
      hide Invariants.Inv, Without, Q.Moved, Q.Selected;
      if !enabled { return None; }
      var selected := Select(interactionOnly);
      if selected.None? { return None; }
      var r := queued[selected.value];
      MoveToFlight(selected.value, Without(Dropped(queued, selected.value), Q.Replaceable(inFlight, r.capture.job)));
      return Some(r);
    }

    // ---- Resolving ----

    method TakeFromFlight(id: nat) returns (request: Option<Request>)
      modifies this`inFlight, this`metrics
      ensures
        var i := FirstIndex(old(inFlight), WithId(id));
        if i == |old(inFlight)| then
          request == None && State() == old(State()).(metrics := Q.WithOutcome(old(metrics), Q.Unknown, false))
        else request == Some(old(inFlight)[i]) && State() == Q.Resolved(old(State()), i)
    {
      var i := FirstIndex(inFlight, WithId(id));
      if i == |inFlight| {
        metrics := metrics.(unknown := metrics.unknown + 1);
        return None;
      }
      request := Some(inFlight[i]);
      inFlight := Dropped(inFlight, i);
      metrics := metrics.(inFlight := |inFlight|);
    }

    method Complete(id: nat, identity: Identity, sourceRevision: U64, worldRevision: U64, matched: bool)
      returns (status: Q.Status, request: Option<Request>)
      requires Valid()
      modifies this
      ensures Valid()
      ensures Q.Resolution(State(), status, request)
           == Q.Resolve(old(State()), id, identity, Q.Completion(sourceRevision, worldRevision, matched))
    {
      Invariants.ResolveKeepsInv(State(), id, identity, Q.Completion(sourceRevision, worldRevision, matched));
      hide Invariants.Inv, Q.Resolved, FirstIndex, Q.WithOutcome, Q.Latest;
      request := TakeFromFlight(id);
      if request.None? { return Q.Unknown, None; }
      var j := request.value.capture.job;
      if !IdentityMatches(request.value, identity) {
        status := Q.WrongIdentity;
      } else if !enabled || j.sourceRevision != sourceRevision || j.worldRevision != worldRevision || !Q.Latest(State(), j) {
        status := Q.Stale;
      } else {
        status := if matched then Q.Matched else Q.Mismatched;
      }
      metrics := Q.WithOutcome(metrics, status, false);
    }

    method ValidateResident(id: nat, identity: Identity, sourceRevision: U64) returns (status: Q.Status)
      requires Valid()
      modifies this
      ensures Valid()
      ensures
        var r := Q.Resolve(old(State()), id, identity, Q.Validation(sourceRevision));
        State() == r.state && status == r.status
    {
      Invariants.ResolveKeepsInv(State(), id, identity, Q.Validation(sourceRevision));
      hide Invariants.Inv, Q.Resolved, FirstIndex, Q.WithOutcome, Q.Latest;
      var request := TakeFromFlight(id);
      if request.None? { return Q.Unknown; }
      var j := request.value.capture.job;
      if !IdentityMatches(request.value, identity) {
        status := Q.WrongIdentity;
      } else if !enabled || j.sourceRevision != sourceRevision || !Q.Latest(State(), j) {
        status := Q.Stale;
      } else {
        status := Q.Ready;
      }
      metrics := Q.WithOutcome(metrics, status, true);
    }

    method RejectResident(id: nat, identity: Identity) returns (status: Q.Status)
      requires Valid()
      modifies this
      ensures Valid()
      ensures
        var r := Q.Resolve(old(State()), id, identity, Q.Rejection);
        State() == r.state && status == r.status
    {
      Invariants.ResolveKeepsInv(State(), id, identity, Q.Rejection);
      hide Invariants.Inv, Q.Resolved, FirstIndex, Q.WithOutcome;
      var request := TakeFromFlight(id);
      if request.None? { return Q.Unknown; }
      status := if IdentityMatches(request.value, identity) then Q.Rejected else Q.WrongIdentity;
      metrics := Q.WithOutcome(metrics, status, true);
    }
  }

  lemma VictimLeaves(st: Q.QueueState, i: nat)
    requires i < |st.queued|
    ensures |Q.WithoutVersion(st, st.queued[i].capture.job).queued| < |st.queued|
  {
    assert OfVersion(st.queued[i].capture.job)(st.queued[i]);
  }

  lemma KeepsCapacity(st: Q.QueueState, job: Job, required: int)
    ensures Q.DropBackground(st, job, required, 0).capacity == st.capacity
  {
    Invariants.DropBackgroundShrinks(st, job, required, 0);
    hide Q.DropBackground;
  }
}
