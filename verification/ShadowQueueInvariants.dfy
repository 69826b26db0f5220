/** What every call keeps on the shadow queue: capacity, slots, identities, and where each captured request went. */
module ShadowQueueInvariants {
  import opened ShadowJobs
  import opened ShadowQueues

  function TotalSlots(rs: seq<Reservation>): nat {
    if |rs| == 0 then 0 else TotalSlots(rs[..|rs| - 1]) + rs[|rs| - 1].remaining
  }

  /** Everything held fits the capacity, and the slot counter is the sum over live reservations. */
  ghost predicate Bounded(st: QueueState) {
    && (if st.enabled then 0 < st.capacity <= 16 else st.capacity == 0)
    && Occupied(st) <= st.capacity
    && st.metrics.reservedSlots == TotalSlots(st.reservations)
  }

  /** Live reservations have slots left and identities of their own. */
  ghost predicate Reserved(rs: seq<Reservation>, limit: nat) {
    && (forall i :: 0 <= i < |rs| ==> rs[i].remaining > 0 && 0 < rs[i].id < limit)
    && (forall i, j :: 0 <= i < j < |rs| ==> rs[i].id != rs[j].id)
  }

  ghost predicate Identified(st: QueueState) {
    && DistinctIds(st.queued) && DistinctIds(st.inFlight) && IdsOf(st.queued) !! IdsOf(st.inFlight)
    && (forall v :: v in IdsOf(st.queued) ==> 0 < v < st.nextRequestId)
    && (forall v :: v in IdsOf(st.inFlight) ==> 0 < v < st.nextRequestId)
  }

  function Outcomes(m: Metrics): nat {
    m.matched + m.mismatched + m.stale + m.identityMismatches + m.ready + m.rejected + m.residentStale
  }

  /** Every captured request is queued, in flight, superseded or resolved, and in only one of these ways. */
  ghost predicate Accounted(st: QueueState) {
    && st.metrics.queued == |st.queued| && st.metrics.inFlight == |st.inFlight|
    && st.nextRequestId > 0 && st.nextReservationId > 0
    && (st.enabled ==>
          st.nextRequestId == st.metrics.captured + 1
          && st.metrics.captured == |st.queued| + |st.inFlight| + st.metrics.superseded + Outcomes(st.metrics))
  }

  ghost predicate Inv(st: QueueState) {
    Bounded(st) && Reserved(st.reservations, st.nextReservationId) && Identified(st) && Accounted(st)
  }

  lemma InitiallyInv()
    ensures Inv(IDLE)
  {}

  // ---- Dropping ----

  /** Requests left the queue and were counted; nothing else happened. */
  ghost predicate Shrinks(st: QueueState, next: QueueState) {
    && |next.queued| <= |st.queued| && next == Keeping(st, next.queued)
    && (forall r :: r in next.queued ==> r in st.queued)
    && (DistinctIds(st.queued) ==> DistinctIds(next.queued))
  }

  lemma NothingShrinks(st: QueueState)
    ensures Shrinks(st, st)
  {}

  lemma ShrinksTwice(a: QueueState, b: QueueState, c: QueueState)
    requires Shrinks(a, b) && Shrinks(b, c)
    ensures Shrinks(a, c)
  {
    hide DistinctIds;
  }

  lemma WithoutVersionShrinks(st: QueueState, j: Job)
    ensures Shrinks(st, WithoutVersion(st, j))
    ensures WithoutVersion(st, j).inFlight == st.inFlight && Lossless(WithoutVersion(st, j)) == Lossless(st)
    ensures forall r :: r in st.queued && r !in WithoutVersion(st, j).queued ==> SameVersion(r.capture.job, j)
  {
    if DistinctIds(st.queued) {
      WithoutKeepsDistinct(st.queued, OfVersion(j));
    }
  }

  lemma VersionsAreAlike(s: seq<Request>, job: Job, a: Job, b: Job)
    requires SameVersion(a, b)
    ensures VersionIn(s, a) == VersionIn(s, b) && VersionSupersedes(job, a) == VersionSupersedes(job, b)
  {}

  /** The request is outdated by the incoming job and has no sibling in flight. */
  predicate Outdated(st: QueueState, job: Job, r: Request) {
    VersionSupersedes(job, r.capture.job) && !VersionIn(st.inFlight, r.capture.job)
  }

  lemma {:induction false} DropBackgroundShrinks(st: QueueState, job: Job, required: int, released: nat)
    ensures Shrinks(st, DropBackground(st, job, required, released))
    ensures forall r :: r in st.queued && r !in DropBackground(st, job, required, released).queued ==> Outdated(st, job, r)
    decreases |st.queued|
  {
    hide WithoutVersion, Shrinks, VersionIn, SameVersion, VersionSupersedes;
    NothingShrinks(st);
    var i := FirstIndex(st.queued, BackgroundVictim(st.inFlight, job));
    if released < required && i < |st.queued| {
      var victim := st.queued[i].capture.job;
      assert BackgroundVictim(st.inFlight, job)(st.queued[i]);
      var next := WithoutVersion(st, victim);
      WithoutVersionShrinks(st, victim);
      if |next.queued| != |st.queued| {
        assert |next.queued| < |st.queued| by { FewerQueued(st, next); }
        DropBackgroundShrinks(next, job, required, released + (|st.queued| - |next.queued|));
        ShrinksTwice(st, next, DropBackground(next, job, required, released + (|st.queued| - |next.queued|)));
        forall r | r in st.queued && r !in next.queued ensures Outdated(st, job, r) {
          VersionsAreAlike(st.inFlight, job, r.capture.job, victim);
        }
      }
    }
  }

  lemma FewerQueued(st: QueueState, next: QueueState)
    requires Shrinks(st, next)
    ensures |next.queued| <= |st.queued|
  {}

  /** The same of the second pass, up to the rule in force: some request of the dropped version had to give way. */
  ghost predicate GaveWay(st: QueueState, job: Job, r: Request) {
    && !VersionIn(st.inFlight, r.capture.job)
    && exists q :: q in st.queued && SameVersion(q.capture.job, r.capture.job) && MayDrop(Lossless(st), job, q.capture.job)
  }

  lemma {:induction false} DropForRoomShrinks(st: QueueState, job: Job, required: int, released: nat)
    ensures Shrinks(st, DropForRoom(st, job, required, released))
    ensures forall r :: r in st.queued && r !in DropForRoom(st, job, required, released).queued ==> GaveWay(st, job, r)
    decreases |st.queued|
  {
    hide WithoutVersion, Shrinks, VersionIn, SameVersion, MayDrop, CheapestIndex, Lossless;
    NothingShrinks(st);
    if released < required && |st.queued| > 0 {
      var q := st.queued[CheapestIndex(st.inFlight, st.queued, |st.queued|)];
      var next := WithoutVersion(st, q.capture.job);
      if !VersionIn(st.inFlight, q.capture.job) && MayDrop(Lossless(st), job, q.capture.job) && |next.queued| != |st.queued| {
        WithoutVersionShrinks(st, q.capture.job);
        assert |next.queued| < |st.queued| by { FewerQueued(st, next); }
        DropForRoomShrinks(next, job, required, released + (|st.queued| - |next.queued|));
        ShrinksTwice(st, next, DropForRoom(next, job, required, released + (|st.queued| - |next.queued|)));
        forall r | r in st.queued && r !in next.queued ensures GaveWay(st, job, r) {
          DroppedVersionGaveWay(st, job, q, r);
        }
        forall r | r in next.queued && GaveWay(next, job, r) ensures GaveWay(st, job, r) {
          StillGaveWay(st, next, job, r);
        }
      }
    }
  }

  lemma DroppedVersionGaveWay(st: QueueState, job: Job, q: Request, r: Request)
    requires q in st.queued && SameVersion(r.capture.job, q.capture.job)
    requires !VersionIn(st.inFlight, q.capture.job) && MayDrop(Lossless(st), job, q.capture.job)
    ensures GaveWay(st, job, r)
  {
    VersionsAreAlike(st.inFlight, job, r.capture.job, q.capture.job);
    hide VersionIn, MayDrop, Lossless;
  }

  lemma StillGaveWay(st: QueueState, next: QueueState, job: Job, r: Request)
    requires Shrinks(st, next) && next.inFlight == st.inFlight && Lossless(next) == Lossless(st) && GaveWay(next, job, r)
    ensures GaveWay(st, job, r)
  {
    hide VersionIn, MayDrop, Lossless, SameVersion, DistinctIds;
  }

  // ---- Slots ----

  lemma {:induction false} SlotsWithout(rs: seq<Reservation>, i: nat)
    requires i < |rs|
    ensures TotalSlots(rs[..i] + rs[i + 1..]) == TotalSlots(rs) - rs[i].remaining
    decreases |rs|
  {
    var m := |rs| - 1;
    if i < m {
      SlotsWithout(rs[..m], i);
      assert (rs[..i] + rs[i + 1..])[..m - 1] == rs[..m][..i] + rs[..m][i + 1..];
    } else {
      assert rs[..i] + rs[i + 1..] == rs[..m];
    }
  }

  lemma {:induction false} SlotsUpdated(rs: seq<Reservation>, i: nat, r: Reservation)
    requires i < |rs|
    ensures TotalSlots(rs[i := r]) == TotalSlots(rs) - rs[i].remaining + r.remaining
    decreases |rs|
  {
    var m := |rs| - 1;
    if i < m {
      SlotsUpdated(rs[..m], i, r);
      assert rs[i := r][..m] == rs[..m][i := r];
    } else {
      assert rs[i := r][..m] == rs[..m];
    }
  }

  lemma ReservedWithout(rs: seq<Reservation>, i: nat, limit: nat)
    requires i < |rs| && Reserved(rs, limit)
    ensures Reserved(rs[..i] + rs[i + 1..], limit)
  {}

  lemma ReservedAdded(rs: seq<Reservation>, r: Reservation)
    requires Reserved(rs, r.id) && r.id > 0 && r.remaining > 0
    ensures Reserved(rs + [r], r.id + 1)
  {}

  lemma ReservedUpdated(rs: seq<Reservation>, i: nat, r: Reservation, limit: nat)
    requires i < |rs| && Reserved(rs, limit) && r.id == rs[i].id && r.remaining > 0
    ensures Reserved(rs[i := r], limit)
  {}

  lemma RedeemedSlots(rs: seq<Reservation>, i: nat, limit: nat)
    requires i < |rs| && rs[i].remaining > 0 && Reserved(rs, limit)
    ensures Reserved(Redeemed(rs, i), limit) && TotalSlots(Redeemed(rs, i)) == TotalSlots(rs) - 1
  {
    hide TotalSlots, Reserved;
    if rs[i].remaining == 1 {
      SlotsWithout(rs, i);
      ReservedWithout(rs, i, limit);
    } else {
      SlotsUpdated(rs, i, rs[i].(remaining := rs[i].remaining - 1));
      ReservedUpdated(rs, i, rs[i].(remaining := rs[i].remaining - 1), limit);
    }
  }

  lemma AddedSlots(rs: seq<Reservation>, r: Reservation)
    ensures TotalSlots(rs + [r]) == TotalSlots(rs) + r.remaining
  {
    assert (rs + [r])[..|rs|] == rs;
  }

  // ---- Every call keeps the invariant ----

  lemma MembersKeepIds(s: seq<Request>, kept: seq<Request>)
    requires forall r :: r in kept ==> r in s
    ensures IdsOf(kept) <= IdsOf(s)
  {
    forall v | v in IdsOf(kept) ensures v in IdsOf(s) {
      var r :| r in kept && r.id == v;
      assert r in s;
    }
  }

  lemma ShrinkingKeepsInv(st: QueueState, next: QueueState)
    requires Inv(st) && Shrinks(st, next)
    ensures Inv(Mirrored(next)) && Occupied(Mirrored(next)) <= Occupied(st)
  {
    MembersKeepIds(st.queued, next.queued);
    hide DistinctIds, IdsOf, TotalSlots, Reserved;
  }

  /** Everything but the queue, its count and the superseded count is as before. */
  predicate OnlyDropped(st: QueueState, next: QueueState) {
    next == st.(queued := next.queued,
                metrics := st.metrics.(queued := next.metrics.queued, superseded := next.metrics.superseded))
  }

  lemma MadeClassRoom(st: QueueState, job: Job)
    requires Inv(st)
    ensures Inv(MakeClassRoom(st, job)) && OnlyDropped(st, MakeClassRoom(st, job))
    ensures forall r :: r in MakeClassRoom(st, job).queued ==> r in st.queued
    ensures forall r :: r in st.queued && r !in MakeClassRoom(st, job).queued ==> Outdated(st, job, r)
  {
    if OverClassLimit(st, job) {
      var required := Occupancy(st, Coverage(job)) + SlotsFor(st.capacity) - ClassLimit(st.capacity, Coverage(job));
      hide Inv, DropBackground, Outdated, OverClassLimit, Occupancy, ClassLimit, SlotsFor, DistinctIds;
      DropBackgroundShrinks(st, job, required, 0);
      ShrinkingKeepsInv(st, DropBackground(st, job, required, 0));
    }
  }

  lemma FitsItsCapacity(st: QueueState)
    requires Inv(st)
    ensures Occupied(st) <= st.capacity
  {
    hide Reserved, Identified, Accounted, TotalSlots, Occupied;
  }

  lemma MadeRoom(st: QueueState, job: Job)
    requires Inv(st)
    ensures Inv(MakeRoom(st, job)) && OnlyDropped(st, MakeRoom(st, job))
    ensures forall r :: r in MakeRoom(st, job).queued ==> r in st.queued
    ensures forall r :: r in st.queued && r !in MakeRoom(st, job).queued ==> GaveWay(st, job, r)
  {
    hide Inv, DropForRoom, GaveWay, Occupied, SlotsFor, DistinctIds;
    FitsItsCapacity(st);
    var free := st.capacity - Occupied(st);
    if free < SlotsFor(st.capacity) {
      DropForRoomShrinks(st, job, SlotsFor(st.capacity) - free, 0);
      ShrinkingKeepsInv(st, DropForRoom(st, job, SlotsFor(st.capacity) - free, 0));
    }
  }

  lemma RefusingKeepsInv(st: QueueState)
    requires Inv(st)
    ensures Inv(Refused(st).state)
  {
    hide DistinctIds, IdsOf, TotalSlots, Reserved;
  }

  lemma GrantingKeepsInv(st: QueueState, job: Job)
    requires Inv(st) && st.enabled
    ensures Inv(GrantOrRefuse(st, job).state)
  {
    RefusingKeepsInv(st);
    var r := Reservation(st.nextReservationId, SlotsFor(st.capacity), job);
    AddedSlots(st.reservations, r);
    ReservedAdded(st.reservations, r);
    hide DistinctIds, IdsOf, TotalSlots, Reserved;
  }

  lemma TryingKeepsInv(st: QueueState)
    requires Inv(st)
    ensures Inv(Tried(st)) && Tried(st).enabled == st.enabled
  {
    hide DistinctIds, IdsOf, TotalSlots, Reserved;
  }

  lemma ReservingKeepsInv(tried: QueueState, job: Job)
    requires Inv(tried) && tried.enabled
    ensures
      var classed := MakeClassRoom(tried, job);
      Inv((if OverClassLimit(classed, job) then Refused(classed) else GrantOrRefuse(MakeRoom(classed, job), job)).state)
  {
    hide Inv, MakeClassRoom, MakeRoom, GrantOrRefuse, Refused, OverClassLimit;
    MadeClassRoom(tried, job);
    var classed := MakeClassRoom(tried, job);
    RefusingKeepsInv(classed);
    MadeRoom(classed, job);
    GrantingKeepsInv(MakeRoom(classed, job), job);
  }

  lemma ReserveKeepsInv(st: QueueState, job: Job)
    requires Inv(st)
    ensures Inv(Reserve(st, job).state)
  {
    hide Inv, MakeClassRoom, MakeRoom, GrantOrRefuse, Refused, OverClassLimit, Tried;
    TryingKeepsInv(st);
    var tried := Tried(st);
    RefusingKeepsInv(tried);
    if st.enabled {
      ReservingKeepsInv(tried, job);
    }
  }

  /** Admission needs a place to replace or a free slot. */
  lemma AdmittingKeepsInv(st: QueueState, c: Capture, i: nat)
    requires Inv(st) && st.enabled && i <= |st.queued| && (i < |st.queued| || Occupied(st) < st.capacity)
    ensures Inv(Admitted(st, c, i))
  {
    var r := Request(c, st.nextRequestId);
    assert r.id !in IdsOf(st.queued) + IdsOf(st.inFlight);
    if i < |st.queued| {
      ReplacedKeepsDistinct(st.queued, i, r);
    } else {
      AddedKeepsDistinct(st.queued, r);
    }
    hide DistinctIds, IdsOf, TotalSlots, Reserved;
  }

  lemma CaptureReservedKeepsInv(st: QueueState, id: nat, c: Capture)
    requires Inv(st)
    ensures Inv(CaptureReserved(st, id, c).state)
  {
    if Redeemable(st, id, c) {
      var i := ReservationIndex(st.reservations, id);
      SpendingKeepsInv(st, i);
      hide Inv, FirstIndex, Retained, Admitted, Spent;
      AdmittingKeepsInv(Spent(st, i), Retained(st.retain, c), FirstIndex(st.queued, Replaceable(st.inFlight, c.job)));
    } else {
      hide Inv, Redeemable, Admitted, Spent, FirstIndex;
      FailingKeepsInv(st);
    }
  }

  lemma FailingKeepsInv(st: QueueState)
    requires Inv(st)
    ensures Inv(st.(metrics := st.metrics.(reservedFailures := st.metrics.reservedFailures + 1)))
  {
    hide DistinctIds, IdsOf, TotalSlots, Reserved;
  }

  /** A spent slot is free for a capture. */
  lemma SpendingKeepsInv(st: QueueState, i: nat)
    requires Inv(st) && st.enabled && i < |st.reservations| && st.reservations[i].remaining != 0
    ensures Inv(Spent(st, i)) && Spent(st, i).enabled && Spent(st, i).queued == st.queued
    ensures Occupied(Spent(st, i)) < Spent(st, i).capacity
  {
    RedeemedSlots(st.reservations, i, st.nextReservationId);
    hide DistinctIds, IdsOf, TotalSlots, Reserved, Redeemed;
  }

  lemma SaturatingKeepsInv(st: QueueState)
    requires Inv(st)
    ensures Inv(Saturated(st).state)
  {
    hide DistinctIds, IdsOf, TotalSlots, Reserved;
  }

  lemma CaptureKeepsInv(st: QueueState, c: Capture)
    requires Inv(st)
    ensures Inv(Captured(st, c).state)
  {
    hide Inv, Admitted, Retained, ClassIsFull, Substantial, FirstIndex, Replaceable, ReplaceableBackground, Occupied, Saturated;
    SaturatingKeepsInv(st);
    var i := FirstIndex(st.queued, ReplaceableBackground(st.inFlight, c.job));
    var k := FirstIndex(st.queued, Replaceable(st.inFlight, c.job));
    if st.enabled {
      if i < |st.queued| { AdmittingKeepsInv(st, c, i); }
      if k < |st.queued| { AdmittingKeepsInv(st, Retained(st.retain, c), k); }
      if Occupied(st) < st.capacity { AdmittingKeepsInv(st, Retained(st.retain, c), |st.queued|); }
    }
  }

  lemma ReleaseKeepsInv(st: QueueState, id: nat)
    requires Inv(st)
    ensures Inv(Released(st, id))
  {
    hide DistinctIds, IdsOf, TotalSlots, ReservationIndex, Reserved;
    var i := ReservationIndex(st.reservations, id);
    if i < |st.reservations| {
      SlotsWithout(st.reservations, i);
      ReservedWithout(st.reservations, i, st.nextReservationId);
    }
  }

  /** One queued request moves in flight and others of the queue are superseded. */
  lemma MovingKeepsInv(st: QueueState, i: nat, kept: seq<Request>)
    requires Inv(st) && st.enabled && i < |st.queued| && |kept| < |st.queued|
    requires DistinctIds(kept) && IdsOf(kept) <= IdsOf(st.queued) - {st.queued[i].id}
    ensures Inv(Moved(st, i, kept))
  {
    assert st.queued[i].id in IdsOf(st.queued);
    AddedKeepsDistinct(st.inFlight, Tracked(st.queued[i]));
    hide DistinctIds, IdsOf, TotalSlots, Reserved;
  }

  lemma PopKeepsInv(st: QueueState, interactionOnly: bool)
    requires Inv(st)
    ensures Inv(Pop(st, interactionOnly).state)
  {
    var selected := Selected(st.queued, interactionOnly, |st.queued|);
    if st.enabled && selected.Some? {
      var i := selected.value;
      var others := Dropped(st.queued, i);
      var outdated := Replaceable(st.inFlight, st.queued[i].capture.job);
      DroppedKeepsDistinct(st.queued, i);
      WithoutKeepsDistinct(others, outdated);
      hide DistinctIds, IdsOf, Inv, Without, Replaceable, Selected, Moved;
      assert |others| == |st.queued| - 1;
      MovingKeepsInv(st, i, Without(others, outdated));
    }
  }

  lemma OutcomeIsCounted(m: Metrics, status: Status, resident: bool)
    ensures
      var n := WithOutcome(m, status, resident);
      && Outcomes(n) == Outcomes(m) + (if status == Unknown then 0 else 1)
      && n.queued == m.queued && n.inFlight == m.inFlight && n.captured == m.captured && n.superseded == m.superseded
      && n.reservedSlots == m.reservedSlots
  {}

  lemma ResolvingKeepsInv(st: QueueState, i: nat, status: Status, resident: bool)
    requires Inv(st) && i < |st.inFlight| && status != Unknown
    ensures Inv(Resolved(st, i).(metrics := WithOutcome(Resolved(st, i).metrics, status, resident)))
  {
    DroppedKeepsDistinct(st.inFlight, i);
    OutcomeIsCounted(Resolved(st, i).metrics, status, resident);
    hide DistinctIds, IdsOf, TotalSlots, Reserved, WithOutcome, Outcomes;
    assert |Dropped(st.inFlight, i)| == |st.inFlight| - 1;
  }

  lemma ResolveKeepsInv(st: QueueState, id: nat, identity: Identity, v: Verdict)
    requires Inv(st)
    ensures Inv(Resolve(st, id, identity, v).state)
  {
    var i := FirstIndex(st.inFlight, WithId(id));
    if i < |st.inFlight| {
      var status := Judge(Resolved(st, i), st.inFlight[i], identity, v);
      assert status != Unknown;
      hide Inv, FirstIndex, WithId, WithOutcome, Resolved, Judge;
      ResolvingKeepsInv(st, i, status, !v.Completion?);
    } else {
      OutcomeIsCounted(st.metrics, Unknown, false);
      hide DistinctIds, IdsOf, TotalSlots, Reserved, FirstIndex, WithId, WithOutcome, Outcomes;
    }
  }

  /** Each call, by whichever thread, keeps the whole invariant. */
  lemma CallKeepsInv(st: QueueState, call: Call)
    requires Inv(st)
    ensures Inv(Next(st, call))
  {
    match call
    case BeginCall(capacity, retain, stage) =>
    case EndCall => hide Reserved;
    case ReserveCall(job) => ReserveKeepsInv(st, job);
    case ReservedCaptureCall(id, c) => CaptureReservedKeepsInv(st, id, c);
    case ReleaseCall(id) => ReleaseKeepsInv(st, id);
    case CaptureCall(c) => CaptureKeepsInv(st, c);
    case PopCall(interactionOnly) => PopKeepsInv(st, interactionOnly);
    case ResolveCall(id, identity, v) => ResolveKeepsInv(st, id, identity, v);
  }

  lemma {:induction false} RunKeepsInv(st: QueueState, calls: seq<Call>)
    requires Inv(st)
    ensures Inv(Run(st, calls))
    decreases |calls|
  {
    if |calls| > 0 {
      hide Inv, Next;
      CallKeepsInv(st, calls[0]);
      RunKeepsInv(Next(st, calls[0]), calls[1..]);
    }
  }

  /** After any sequence of calls on a new queue: held requests and reserved slots fit the capacity; the slot counter is
      the sum over live reservations, so it never goes below zero; identities are all different; and every request
      captured since the last start is queued, in flight, superseded or resolved exactly once. */
  lemma EveryReachableQueueIsSound(calls: seq<Call>)
    ensures Inv(Run(IDLE, calls))
  {
    InitiallyInv();
    RunKeepsInv(IDLE, calls);
  }
}
