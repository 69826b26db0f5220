/** No request is resolved twice: identities that are gone stay gone until the queue is started again. */
module ShadowQueueResolutions {
  import opened ShadowJobs
  import opened ShadowQueues
  import opened ShadowQueueInvariants

  /** The identity was given out and its request is no longer held. */
  ghost predicate Gone(st: QueueState, id: nat) {
    id < st.nextRequestId && id !in IdsOf(st.queued) && id !in IdsOf(st.inFlight)
  }

  predicate Resolves(st: QueueState, id: nat, call: Call) {
    call.ResolveCall? && call.id == id && Resolve(st, id, call.identity, call.verdict).status != Unknown
  }

  function Resolutions(st: QueueState, id: nat, calls: seq<Call>): nat
    decreases |calls|
  {
    if |calls| == 0 then 0
    else (if Resolves(st, id, calls[0]) then 1 else 0) + Resolutions(Next(st, calls[0]), id, calls[1..])
  }

  /** An answer other than unknown is given exactly for a request in flight, and takes it out. */
  lemma ResolvingEndsARequest(st: QueueState, id: nat, identity: Identity, v: Verdict)
    requires Inv(st)
    ensures
      var r := Resolve(st, id, identity, v);
      && (r.status != Unknown <==> id in IdsOf(st.inFlight))
      && (r.status != Unknown ==> Gone(r.state, id) && r.request.Some? && r.request.value.id == id
                                  && r.request.value in st.inFlight)
  {
    var i := FirstIndex(st.inFlight, WithId(id));
    if i < |st.inFlight| {
      assert WithId(id)(st.inFlight[i]);
      DroppedKeepsDistinct(st.inFlight, i);
      assert st.inFlight[i] in st.inFlight;
      assert Judge(Resolved(st, i), st.inFlight[i], identity, v) != Unknown;
    } else {
      forall r | r in st.inFlight ensures r.id != id {
        assert !WithId(id)(r);
      }
    }
    hide Inv, Judge, WithOutcome, FirstIndex, DistinctIds;
  }

  lemma AdmissionIsNew(st: QueueState, c: Capture, i: nat, id: nat)
    requires i <= |st.queued| && Gone(st, id)
    ensures Gone(Admitted(st, c, i), id)
  {
    forall r | r in Admitted(st, c, i).queued ensures r.id != id {
      assert r.id == st.nextRequestId || r in st.queued;
    }
  }

  lemma MembersKeepGone(st: QueueState, next: QueueState, id: nat)
    requires Gone(st, id) && next.nextRequestId == st.nextRequestId
    requires forall r :: r in next.queued ==> r in st.queued
    requires forall r :: r in next.inFlight ==> r in st.inFlight || exists q :: q in st.queued && q.id == r.id
    ensures Gone(next, id)
  {}

  lemma ReserveKeepsGone(st: QueueState, job: Job, id: nat)
    requires Inv(st) && Gone(st, id)
    ensures Gone(Reserve(st, job).state, id)
  {
    hide Inv, MakeClassRoom, MakeRoom, OverClassLimit, Outdated, GaveWay, Gone, Occupied, SlotsFor;
    TryingKeepsInv(st);
    var tried := Tried(st);
    MadeClassRoom(tried, job);
    MadeRoom(MakeClassRoom(tried, job), job);
    MembersKeepGone(st, Reserve(st, job).state, id);
  }

  lemma CaptureKeepsGone(st: QueueState, c: Capture, id: nat)
    requires Gone(st, id)
    ensures Gone(Captured(st, c).state, id)
  {
    var i := FirstIndex(st.queued, ReplaceableBackground(st.inFlight, c.job));
    var k := FirstIndex(st.queued, Replaceable(st.inFlight, c.job));
    hide Admitted, Retained, ClassIsFull, Substantial, Occupied, FirstIndex, IdsOf;
    AdmissionIsNew(st, c, i, id);
    AdmissionIsNew(st, Retained(st.retain, c), k, id);
    AdmissionIsNew(st, Retained(st.retain, c), |st.queued|, id);
  }

  lemma ReservedCaptureKeepsGone(st: QueueState, other: nat, c: Capture, id: nat)
    requires Gone(st, id)
    ensures Gone(CaptureReserved(st, other, c).state, id)
  {
    if Redeemable(st, other, c) {
      var slot := Spent(st, ReservationIndex(st.reservations, other));
      hide Admitted, Retained, Substantial, FirstIndex, IdsOf, ReservationIndex, Redeemed, SameVersion;
      AdmissionIsNew(slot, Retained(st.retain, c), FirstIndex(st.queued, Replaceable(st.inFlight, c.job)), id);
    }
    hide Redeemable;
  }

  lemma PopKeepsGone(st: QueueState, interactionOnly: bool, id: nat)
    requires Gone(st, id)
    ensures Gone(Pop(st, interactionOnly).state, id)
  {
    var selected := Selected(st.queued, interactionOnly, |st.queued|);
    var next := Pop(st, interactionOnly).state;
    if st.enabled && selected.Some? {
      var r := st.queued[selected.value];
      assert r in st.queued && Tracked(r).id == r.id;
      hide Selected, Without, Gone, Tracked;
      MembersKeepGone(st, next, id);
    }
  }

  lemma ResolveKeepsGone(st: QueueState, other: nat, identity: Identity, v: Verdict, id: nat)
    requires Gone(st, id)
    ensures Gone(Resolve(st, other, identity, v).state, id)
  {
    hide Gone, Judge, WithOutcome, FirstIndex;
    MembersKeepGone(st, Resolve(st, other, identity, v).state, id);
  }

  /** Until the queue is started again, an identity that is gone never comes back. */
  lemma GoneIsForGood(st: QueueState, call: Call, id: nat)
    requires Inv(st) && Gone(st, id) && !call.BeginCall?
    ensures Gone(Next(st, call), id)
  {
    hide Inv, Pop, Reserve, Captured, CaptureReserved, Resolve;
    match call
    case EndCall =>
    case ReserveCall(job) => ReserveKeepsGone(st, job, id);
    case ReservedCaptureCall(other, c) => ReservedCaptureKeepsGone(st, other, c, id);
    case ReleaseCall(other) =>
    case CaptureCall(c) => CaptureKeepsGone(st, c, id);
    case PopCall(interactionOnly) => PopKeepsGone(st, interactionOnly, id);
    case ResolveCall(other, identity, v) => ResolveKeepsGone(st, other, identity, v, id);
  }

  /** Between two starts of the queue each request is resolved at most once, over any sequence of calls. */
  lemma {:induction false} ResolvedAtMostOnce(st: QueueState, id: nat, calls: seq<Call>)
    requires Inv(st) && forall call :: call in calls ==> !call.BeginCall?
    ensures Resolutions(st, id, calls) <= (if Gone(st, id) then 0 else 1)
    decreases |calls|
  {
    hide Inv, Gone, Resolves, Next;
    if |calls| > 0 {
      var next := Next(st, calls[0]);
      CallKeepsInv(st, calls[0]);
      ResolvedAtMostOnce(next, id, calls[1..]);
      if Gone(st, id) {
        GoneIsForGood(st, calls[0], id);
      }
      ResolvingIsFinal(st, id, calls[0]);
    }
  }

  lemma ResolvingIsFinal(st: QueueState, id: nat, call: Call)
    requires Inv(st)
    ensures Resolves(st, id, call) ==> !Gone(st, id) && Gone(Next(st, call), id)
  {
    hide Inv, Resolve;
    if call.ResolveCall? {
      ResolvingEndsARequest(st, id, call.identity, call.verdict);
    }
  }
}
