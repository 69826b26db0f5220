/** What a granted reservation is worth: exactly its slots, over any calls in between. */
module ShadowQueueReservations {
  import opened ShadowJobs
  import opened ShadowQueues
  import opened ShadowQueueInvariants
  import opened ShadowQueueProperties

  predicate Redeems(st: QueueState, id: nat, call: Call) {
    call.ReservedCaptureCall? && call.id == id && Redeemable(st, id, call.capture)
  }

  /** How many captures were admitted on the reservation. */
  function Redemptions(st: QueueState, id: nat, calls: seq<Call>): nat
    decreases |calls|
  {
    if |calls| == 0 then 0
    else (if Redeems(st, id, calls[0]) then 1 else 0) + Redemptions(Next(st, calls[0]), id, calls[1..])
  }

  predicate Releases(call: Call, id: nat) {
    Restarts(call) || (call.ReleaseCall? && call.id == id)
  }

  lemma IndexIs(rs: seq<Reservation>, limit: nat, id: nat, k: nat)
    requires Reserved(rs, limit) && k < |rs| && rs[k].id == id
    ensures ReservationIndex(rs, id) == k
  {}

  lemma {:induction false} IndexAfterRemoval(rs: seq<Reservation>, limit: nat, i: nat, id: nat)
    requires Reserved(rs, limit) && i < |rs| && rs[i].id != id
    ensures
      var left := rs[..i] + rs[i + 1..];
      var k := ReservationIndex(rs, id);
      if k == |rs| then ReservationIndex(left, id) == |left|
      else ReservationIndex(left, id) < |left| && left[ReservationIndex(left, id)] == rs[k]
  {
    var left := rs[..i] + rs[i + 1..];
    var k := ReservationIndex(rs, id);
    ReservedWithout(rs, i, limit);
    if k < |rs| {
      IndexIs(left, limit, id, if k < i then k else k - 1);
    }
  }

  lemma IndexAfterUpdate(rs: seq<Reservation>, limit: nat, i: nat, n: nat, id: nat)
    requires Reserved(rs, limit) && i < |rs| && n > 0
    ensures ReservationIndex(rs[i := rs[i].(remaining := n)], id) == ReservationIndex(rs, id)
  {
    var after := rs[i := rs[i].(remaining := n)];
    ReservedUpdated(rs, i, rs[i].(remaining := n), limit);
    var k := ReservationIndex(rs, id);
    if k < |rs| {
      IndexIs(after, limit, id, k);
    }
  }

  lemma IndexAfterGrant(rs: seq<Reservation>, limit: nat, r: Reservation, id: nat)
    requires Reserved(rs, limit) && id < limit == r.id && r.remaining > 0
    ensures
      var k := ReservationIndex(rs, id);
      ReservationIndex(rs + [r], id) == (if k == |rs| then |rs| + 1 else k)
  {
    var k := ReservationIndex(rs, id);
    assert Reserved(rs + [r], limit + 1);
    if k < |rs| {
      IndexIs(rs + [r], limit + 1, id, k);
    }
  }

  /** The reservation's slots left and its job, as a list of reservations shows them. */
  predicate SameHold(a: seq<Reservation>, b: seq<Reservation>, id: nat, used: nat) {
    var i, k := ReservationIndex(a, id), ReservationIndex(b, id);
    if i == |a| then k == |b| && used == 0
    else if k == |b| then a[i].remaining == used
    else a[i].remaining == b[k].remaining + used && a[i].job == b[k].job
  }

  lemma RedeemingUsesOne(rs: seq<Reservation>, limit: nat, other: nat, id: nat)
    requires Reserved(rs, limit) && ReservationIndex(rs, other) < |rs|
    ensures SameHold(rs, Redeemed(rs, ReservationIndex(rs, other)), id, if other == id then 1 else 0)
  {
    var i := ReservationIndex(rs, other);
    if rs[i].remaining > 1 {
      IndexAfterUpdate(rs, limit, i, rs[i].remaining - 1, id);
    } else if other == id {
      RemovedIsGone(rs, limit, i);
    } else {
      IndexAfterRemoval(rs, limit, i, id);
    }
  }

  lemma RemovedIsGone(rs: seq<Reservation>, limit: nat, i: nat)
    requires Reserved(rs, limit) && i < |rs|
    ensures ReservationIndex(rs[..i] + rs[i + 1..], rs[i].id) == |rs| - 1
  {}

  /** The parts of the queue that reservations depend on. */
  predicate SameLedger(a: QueueState, b: QueueState) {
    a.reservations == b.reservations && a.nextReservationId == b.nextReservationId
    && a.enabled == b.enabled && a.stage == b.stage && a.capacity == b.capacity
  }

  predicate GrantedLedger(a: QueueState, b: QueueState, job: Job) {
    b.reservations == a.reservations + [Reservation(a.nextReservationId, SlotsFor(a.capacity), job)]
    && b.nextReservationId == a.nextReservationId + 1
    && a.enabled == b.enabled && a.stage == b.stage && a.capacity == b.capacity
  }

  lemma GrantLedger(st: QueueState, job: Job)
    ensures
      var g := GrantOrRefuse(st, job);
      if g.id == 0 then SameLedger(st, g.state) || st.nextReservationId == 0
      else g.id == st.nextReservationId && GrantedLedger(st, g.state, job)
  {
    hide Occupied;
  }

  lemma MakingRoomKeepsLedger(st: QueueState, job: Job)
    requires Inv(st)
    ensures Inv(MakeRoom(MakeClassRoom(st, job), job)) && SameLedger(st, MakeRoom(MakeClassRoom(st, job), job))
    ensures SameLedger(st, MakeClassRoom(st, job))
  {
    hide Inv, MakeClassRoom, MakeRoom, Outdated, GaveWay;
    MadeClassRoom(st, job);
    MadeRoom(MakeClassRoom(st, job), job);
  }

  lemma RefusedLedger(st: QueueState)
    ensures Refused(st).id == 0 && SameLedger(st, Refused(st).state)
  {}

  lemma ReserveLedger(st: QueueState, job: Job)
    requires Inv(st)
    ensures
      var g := Reserve(st, job);
      if g.id == 0 then SameLedger(st, g.state) else g.id == st.nextReservationId && GrantedLedger(st, g.state, job)
  {
    TryingKeepsInv(st);
    var tried := Tried(st);
    assert SameLedger(st, tried) && st.nextReservationId > 0;
    hide Inv, MakeClassRoom, MakeRoom, OverClassLimit, GrantOrRefuse, Refused, SlotsFor, Tried;
    MakingRoomKeepsLedger(tried, job);
    RefusedLedger(tried);
    RefusedLedger(MakeClassRoom(tried, job));
    GrantLedger(MakeRoom(MakeClassRoom(tried, job), job), job);
  }

  lemma NothingUsed(rs: seq<Reservation>, id: nat)
    ensures SameHold(rs, rs, id, 0)
  {}

  lemma ReserveHolds(st: QueueState, job: Job, id: nat)
    requires Inv(st) && 0 < id < st.nextReservationId
    ensures SameHold(st.reservations, Reserve(st, job).state.reservations, id, 0)
    ensures id < Reserve(st, job).state.nextReservationId
    ensures Reserve(st, job).state.enabled == st.enabled && Reserve(st, job).state.stage == st.stage
  {
    ReserveLedger(st, job);
    NothingUsed(st.reservations, id);
    var r := Reservation(st.nextReservationId, SlotsFor(st.capacity), job);
    IndexAfterGrant(st.reservations, st.nextReservationId, r, id);
    hide Inv, Reserve, SlotsFor;
  }

  lemma CapturedLedger(st: QueueState, c: Capture)
    ensures SameLedger(st, Captured(st, c).state)
  {
    hide ClassIsFull, FirstIndex, Retained, Occupied, Substantial;
  }

  lemma PoppedLedger(st: QueueState, interactionOnly: bool)
    ensures SameLedger(st, Pop(st, interactionOnly).state)
  {
    hide Selected, Without;
  }

  lemma ResolvedLedger(st: QueueState, id: nat, identity: Identity, v: Verdict)
    ensures SameLedger(st, Resolve(st, id, identity, v).state)
  {
    hide FirstIndex, Judge, WithOutcome;
  }

  lemma ReservedCaptureHolds(st: QueueState, other: nat, c: Capture, id: nat)
    requires Inv(st)
    ensures
      var next := CaptureReserved(st, other, c).state;
      && SameHold(st.reservations, next.reservations, id, if other == id && Redeemable(st, id, c) then 1 else 0)
      && next.nextReservationId == st.nextReservationId && next.enabled == st.enabled && next.stage == st.stage
  {
    NothingUsed(st.reservations, id);
    if Redeemable(st, other, c) {
      RedeemingUsesOne(st.reservations, st.nextReservationId, other, id);
    }
    hide Inv, FirstIndex, Retained, Redeemed, SameHold, Substantial, SameVersion;
  }

  lemma ReleaseHolds(st: QueueState, other: nat, id: nat)
    requires Inv(st) && other != id
    ensures
      var next := Released(st, other);
      && SameHold(st.reservations, next.reservations, id, 0)
      && next.nextReservationId == st.nextReservationId && next.enabled == st.enabled && next.stage == st.stage
  {
    assert Reserved(st.reservations, st.nextReservationId);
    hide Inv, Reserved;
    NothingUsed(st.reservations, id);
    var i := ReservationIndex(st.reservations, other);
    if i < |st.reservations| {
      IndexAfterRemoval(st.reservations, st.nextReservationId, i, id);
    }
    hide ReservationIndex;
  }

  /** One call that neither restarts the queue nor releases the reservation uses exactly the slot it redeems. */
  lemma CallHolds(st: QueueState, call: Call, id: nat)
    requires Inv(st) && 0 < id < st.nextReservationId && !Releases(call, id)
    ensures SameHold(st.reservations, Next(st, call).reservations, id, if Redeems(st, id, call) then 1 else 0)
    ensures id < Next(st, call).nextReservationId
    ensures Next(st, call).enabled == st.enabled && Next(st, call).stage == st.stage
  {
    hide Inv, SameHold, Captured, CaptureReserved, Pop, Resolve, Reserve, Released, Redeemable;
    NothingUsed(st.reservations, id);
    match call
    case ReserveCall(job) => ReserveHolds(st, job, id);
    case ReservedCaptureCall(other, c) => ReservedCaptureHolds(st, other, c, id);
    case ReleaseCall(other) => ReleaseHolds(st, other, id);
    case CaptureCall(c) => CapturedLedger(st, c);
    case PopCall(interactionOnly) => PoppedLedger(st, interactionOnly);
    case ResolveCall(other, identity, v) => ResolvedLedger(st, other, identity, v);
    case _ =>
  }

  lemma {:induction false} RunHolds(st: QueueState, calls: seq<Call>, id: nat)
    requires Inv(st) && 0 < id < st.nextReservationId
    requires forall call :: call in calls ==> !Releases(call, id)
    ensures SameHold(st.reservations, Run(st, calls).reservations, id, Redemptions(st, id, calls))
    ensures Inv(Run(st, calls)) && Run(st, calls).enabled == st.enabled && Run(st, calls).stage == st.stage
    decreases |calls|
  {
    hide Inv, Next, Redeems, SameHold;
    if |calls| == 0 {
      NothingUsed(st.reservations, id);
    } else {
      var next := Next(st, calls[0]);
      CallHolds(st, calls[0], id);
      CallKeepsInv(st, calls[0]);
      RunHolds(next, calls[1..], id);
      HoldsTwice(st.reservations, next.reservations, Run(next, calls[1..]).reservations, id,
                 if Redeems(st, id, calls[0]) then 1 else 0, Redemptions(next, id, calls[1..]));
    }
  }

  lemma HoldsTwice(a: seq<Reservation>, b: seq<Reservation>, c: seq<Reservation>, id: nat, first: nat, second: nat)
    requires SameHold(a, b, id, first) && SameHold(b, c, id, second)
    ensures SameHold(a, c, id, first + second)
  {}

  /** A granted reservation admits its full number of matching captures, no more, whatever other threads call in between:
      the next matching capture is admitted exactly while slots are left. */
  lemma GrantedReservationIsHonoured(st: QueueState, job: Job, calls: seq<Call>, c: Capture)
    requires Inv(st) && Reserve(st, job).id != 0
    requires forall call :: call in calls ==> !Releases(call, Reserve(st, job).id)
    requires Substantial(c) && c.stage == st.stage && SameVersion(job, c.job)
    ensures
      var g := Reserve(st, job);
      var used := Redemptions(g.state, g.id, calls);
      && used <= SlotsFor(st.capacity)
      && (CaptureReserved(Run(g.state, calls), g.id, c).ok <==> used < SlotsFor(st.capacity))
  {
    var g := Reserve(st, job);
    var slots := SlotsFor(st.capacity);
    ReserveLedger(st, job);
    ReserveKeepsInv(st, job);
    GrantsOnlyWhenEnabled(st, job);
    assert st.nextReservationId > 0 && Reserved(st.reservations, st.nextReservationId);
    hide Inv, Reserve, SlotsFor, Redemptions, Run;
    RunHolds(g.state, calls, g.id);
    GrantedIndex(st.reservations, st.nextReservationId, Reservation(g.id, slots, job));
    var end := Run(g.state, calls);
    AnswerIsRedeemable(end, g.id, c);
    hide ReservationIndex, Substantial, CaptureReserved;
    var k := ReservationIndex(end.reservations, g.id);
    if k < |end.reservations| {
      LiveSlots(end, k);
    }
  }

  lemma AnswerIsRedeemable(st: QueueState, id: nat, c: Capture)
    ensures CaptureReserved(st, id, c).ok == Redeemable(st, id, c)
  {
    hide Admitted, Spent, FirstIndex, Redeemable;
  }

  lemma LiveSlots(st: QueueState, k: nat)
    requires Inv(st) && k < |st.reservations|
    ensures st.reservations[k].remaining > 0
  {}

  lemma GrantsOnlyWhenEnabled(st: QueueState, job: Job)
    requires Reserve(st, job).id != 0
    ensures st.enabled
  {}

  lemma GrantedIndex(rs: seq<Reservation>, limit: nat, r: Reservation)
    requires Reserved(rs, limit) && r.id == limit > 0 && r.remaining > 0
    ensures ReservationIndex(rs + [r], r.id) == |rs|
  {
    ReservedAdded(rs, r);
    hide Reserved;
    assert (rs + [r])[|rs|] == r;
    IndexIs(rs + [r], limit + 1, r.id, |rs|);
  }
}
