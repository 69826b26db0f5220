/** Promises of every call of the shadow queue: who may be dropped, what stays in flight, what is taken first. */
module ShadowQueueProperties {
  import opened Numbers
  import opened ShadowJobs
  import opened ShadowQueues
  import opened ShadowQueueInvariants

  // ---- Who may be dropped ----

  predicate Restarts(call: Call) {
    call.EndCall? || (call.BeginCall? && 0 < call.capacity <= 16)
  }

  /** The job on whose behalf a call may make room. */
  function CallJob(st: QueueState, call: Call): Option<Job> {
    match call
    case ReserveCall(job) => Some(job)
    case ReservedCaptureCall(_, c) => Some(c.job)
    case CaptureCall(c) => Some(c.job)
    case PopCall(interactionOnly) =>
      var p := Pop(st, interactionOnly);
      if p.request.Some? then Some(p.request.value.capture.job) else None
    case _ => None
  }

  ghost predicate LeavesQueue(st: QueueState, call: Call, r: Request) {
    r in st.queued && r !in Next(st, call).queued
  }

  lemma DroppedByReserve(st: QueueState, job: Job, r: Request)
    requires Inv(st) && r in st.queued && r !in Reserve(st, job).state.queued
    ensures Outdated(st, job, r) || GaveWay(st, job, r)
  {
    hide Inv, MakeClassRoom, MakeRoom, OverClassLimit, Outdated, GaveWay;
    TryingKeepsInv(st);
    var tried := Tried(st);
    MadeClassRoom(tried, job);
    var classed := MakeClassRoom(tried, job);
    MadeRoom(classed, job);
    if r !in classed.queued {
      SameJudgement(st, tried, job, r);
    } else {
      LaterJudgement(st, classed, job, r);
    }
  }

  lemma SameJudgement(a: QueueState, b: QueueState, job: Job, r: Request)
    requires a.inFlight == b.inFlight
    ensures Outdated(a, job, r) == Outdated(b, job, r)
  {}

  lemma LaterJudgement(a: QueueState, b: QueueState, job: Job, r: Request)
    requires a.inFlight == b.inFlight && a.retain == b.retain && a.stage == b.stage
    requires forall q :: q in b.queued ==> q in a.queued
    ensures GaveWay(b, job, r) ==> GaveWay(a, job, r)
  {
    hide VersionIn, SameVersion, MayDrop;
  }

  lemma ReplacedIsOutdated(st: QueueState, job: Job, q: Request)
    requires Replaceable(st.inFlight, job)(q)
    ensures Outdated(st, job, q)
  {
    hide VersionIn;
  }

  lemma AdmissionReplacesOne(st: QueueState, c: Capture, i: nat, r: Request)
    requires i <= |st.queued| && r in st.queued
    ensures r in Admitted(st, c, i).queued || (i < |st.queued| && r == st.queued[i])
  {
    var k :| 0 <= k < |st.queued| && st.queued[k] == r;
    if i == |st.queued| || k != i {
      assert Admitted(st, c, i).queued[k] == r;
    }
  }

  lemma DroppedByCapture(st: QueueState, c: Capture, r: Request)
    requires r in st.queued && r !in Captured(st, c).state.queued
    ensures Outdated(st, c.job, r)
  {
    var i := FirstIndex(st.queued, ReplaceableBackground(st.inFlight, c.job));
    var k := FirstIndex(st.queued, Replaceable(st.inFlight, c.job));
    hide Admitted, Retained, ClassIsFull, Substantial, Occupied, VersionIn, Outdated, SupersedesQueued;
    if ClassIsFull(st, c) {
      AdmissionReplacesOne(st, c, i, r);
    } else if Occupied(st) >= st.capacity {
      AdmissionReplacesOne(st, Retained(st.retain, c), k, r);
    } else {
      AdmissionReplacesOne(st, Retained(st.retain, c), |st.queued|, r);
    }
    ReplacedIsOutdated(st, c.job, r);
  }

  lemma DroppedByReservedCapture(st: QueueState, id: nat, c: Capture, r: Request)
    requires r in st.queued && r !in CaptureReserved(st, id, c).state.queued
    ensures Outdated(st, c.job, r)
  {
    var k := FirstIndex(st.queued, Replaceable(st.inFlight, c.job));
    hide Retained, Substantial, VersionIn, Outdated, SupersedesQueued;
    AdmissionReplacesOne(st, Retained(st.retain, c), k, r);
    ReplacedIsOutdated(st, c.job, r);
  }

  lemma DroppedByPop(st: QueueState, interactionOnly: bool, r: Request)
    requires r in st.queued && r !in Pop(st, interactionOnly).state.queued
    ensures
      var p := Pop(st, interactionOnly);
      p.request.Some? && (p.request == Some(r) || Outdated(st, p.request.value.capture.job, r))
  {
    var selected := Selected(st.queued, interactionOnly, |st.queued|);
    hide Selected, Eligible, Outdated, SupersedesQueued, VersionIn, Without, Dropped, Replaceable, Tracked;
    if st.enabled && selected.Some? {
      NotKept(st, selected.value, st.queued[selected.value].capture.job, r);
    }
  }

  lemma NotKept(st: QueueState, i: nat, job: Job, r: Request)
    requires i < |st.queued| && r in st.queued
    ensures r in Without(Dropped(st.queued, i), Replaceable(st.inFlight, job)) || r == st.queued[i] || Outdated(st, job, r)
  {
    hide Outdated, SupersedesQueued, VersionIn;
    if r != st.queued[i] && Replaceable(st.inFlight, job)(r) {
      ReplacedIsOutdated(st, job, r);
    }
  }

  /** In every mode: a request that leaves the queue was popped by this very call, or had no sibling of its version in
      flight and was outdated by the call's job or, for a reservation, had to give way under the rule in force. */
  lemma WhoMayBeDropped(st: QueueState, call: Call, r: Request)
    requires Inv(st) && !Restarts(call)
    ensures LeavesQueue(st, call, r) ==>
      CallJob(st, call).Some? && (
        || (call.PopCall? && Pop(st, call.interactionOnly).request == Some(r))
        || Outdated(st, CallJob(st, call).value, r)
        || (call.ReserveCall? && GaveWay(st, call.job, r)))
  {
    hide Inv, Pop, Reserve, Captured, CaptureReserved, Resolve, Outdated, GaveWay;
    if LeavesQueue(st, call, r) {
      match call
      case ReserveCall(job) => DroppedByReserve(st, job, r);
      case ReservedCaptureCall(id, c) => DroppedByReservedCapture(st, id, c, r);
      case CaptureCall(c) => DroppedByCapture(st, c, r);
      case PopCall(interactionOnly) => DroppedByPop(st, interactionOnly, r);
      case ResolveCall(id, identity, v) => ResolvingLeavesTheQueue(st, id, identity, v);
      case _ =>
    }
  }

  lemma ResolvingLeavesTheQueue(st: QueueState, id: nat, identity: Identity, v: Verdict)
    ensures Resolve(st, id, identity, v).state.queued == st.queued
  {
    hide Judge, WithOutcome, FirstIndex;
  }

  lemma LosslessGivesWayToVersions(st: QueueState, job: Job, r: Request)
    requires Lossless(st) && GaveWay(st, job, r)
    ensures Outdated(st, job, r)
  {
    var q :| q in st.queued && SameVersion(q.capture.job, r.capture.job) && MayDrop(Lossless(st), job, q.capture.job);
    VersionsAreAlike(st.inFlight, job, q.capture.job, r.capture.job);
  }

  /** Lossless mode: a request leaves the queue unpopped only when the call's own job has a newer source revision, or the
      same key at a newer world revision or generation; and never while a sibling of its version is in flight. */
  lemma LosslessDropsOnlyTheOutdated(st: QueueState, call: Call, r: Request)
    requires Inv(st) && Lossless(st) && !Restarts(call)
    ensures LeavesQueue(st, call, r) ==>
      CallJob(st, call).Some?
      && ((call.PopCall? && Pop(st, call.interactionOnly).request == Some(r)) || Outdated(st, CallJob(st, call).value, r))
  {
    WhoMayBeDropped(st, call, r);
    hide Inv, Pop, Outdated, GaveWay, Lossless, Next;
    if call.ReserveCall? && GaveWay(st, call.job, r) {
      LosslessGivesWayToVersions(st, call.job, r);
    }
  }

  lemma ReserveKeepsInFlight(st: QueueState, job: Job)
    requires Inv(st)
    ensures Reserve(st, job).state.inFlight == st.inFlight
  {
    hide Inv, MakeClassRoom, MakeRoom, OverClassLimit, Outdated, GaveWay;
    TryingKeepsInv(st);
    var tried := Tried(st);
    MadeClassRoom(tried, job);
    MadeRoom(MakeClassRoom(tried, job), job);
  }

  lemma CapturesKeepInFlight(st: QueueState, id: nat, c: Capture)
    ensures Captured(st, c).state.inFlight == st.inFlight
    ensures CaptureReserved(st, id, c).state.inFlight == st.inFlight
    ensures Released(st, id).inFlight == st.inFlight
  {
    hide FirstIndex, ClassIsFull, Redeemable, Substantial, Retained, Occupied, ReservationIndex;
  }

  lemma PopAddsToInFlight(st: QueueState, interactionOnly: bool)
    ensures st.inFlight <= Pop(st, interactionOnly).state.inFlight
  {
    hide Selected, Without;
  }

  lemma ResolveRemovesOne(st: QueueState, id: nat, identity: Identity, v: Verdict, r: Request)
    requires r in st.inFlight && r.id != id
    ensures r in Resolve(st, id, identity, v).state.inFlight
  {
    hide Judge, WithOutcome;
    var i := FirstIndex(st.inFlight, WithId(id));
    if i < |st.inFlight| {
      assert WithId(id)(st.inFlight[i]);
      assert st.inFlight == st.inFlight[..i] + [st.inFlight[i]] + st.inFlight[i + 1..];
    }
  }

  /** Work in flight is never revoked: it leaves by being resolved under its own identity, or when the queue restarts. */
  lemma InFlightIsNeverRevoked(st: QueueState, call: Call, r: Request)
    requires Inv(st) && r in st.inFlight && !Restarts(call)
    ensures r in Next(st, call).inFlight || (call.ResolveCall? && call.id == r.id)
  {
    hide Inv, Pop, Reserve, Captured, CaptureReserved, Released, Resolve;
    match call
    case ReserveCall(job) => ReserveKeepsInFlight(st, job);
    case ReservedCaptureCall(id, c) => CapturesKeepInFlight(st, id, c);
    case ReleaseCall(id) => CapturesKeepInFlight(st, id, r.capture);
    case CaptureCall(c) => CapturesKeepInFlight(st, 0, c);
    case PopCall(interactionOnly) =>
      PopAddsToInFlight(st, interactionOnly);
      var k :| 0 <= k < |st.inFlight| && st.inFlight[k] == r;
      assert Pop(st, interactionOnly).state.inFlight[k] == r;
    case ResolveCall(id, identity, v) => if id != r.id { ResolveRemovesOne(st, id, identity, v, r); }
    case _ =>
  }

  // ---- What is taken first ----

  /** At least as urgent by source revision, then world revision, then priority. */
  predicate AtLeastAsUrgent(a: Job, b: Job) {
    || a.sourceRevision > b.sourceRevision
    || (a.sourceRevision == b.sourceRevision && (
         || a.worldRevision > b.worldRevision
         || (a.worldRevision == b.worldRevision && a.priority >= b.priority)))
  }

  lemma {:induction false} SelectionIsUrgent(s: seq<Request>, interactionOnly: bool, n: nat, k: nat)
    requires k < n <= |s| && Eligible(interactionOnly, s[k])
    ensures
      var i := Selected(s, interactionOnly, n);
      && i.Some? && AtLeastAsUrgent(s[i.value].capture.job, s[k].capture.job)
      && (k > i.value ==> !Precedes(s[k].capture.job, s[i.value].capture.job))
    decreases n
  {
    if k < n - 1 {
      SelectionIsUrgent(s, interactionOnly, n - 1, k);
    }
  }

  /** Popping fails only on an idle queue or when nothing is eligible. What it takes is eligible and at least as urgent as
      every eligible request; nothing queued behind it precedes it; and outdated requests for its key do not stay, unless
      their version is in flight. */
  lemma PopTakesTheMostUrgent(st: QueueState, interactionOnly: bool)
    ensures
      var p := Pop(st, interactionOnly);
      && (p.request.None? <==> !st.enabled || forall q :: q in st.queued ==> !Eligible(interactionOnly, q))
      && (p.request.Some? ==>
            var r := p.request.value;
            && r in st.queued && Eligible(interactionOnly, r)
            && (forall q :: q in st.queued && Eligible(interactionOnly, q) ==>
                  AtLeastAsUrgent(r.capture.job, q.capture.job))
            && (forall q :: q in p.state.queued && SupersedesQueued(r.capture.job, q.capture.job) ==>
                  VersionIn(st.inFlight, q.capture.job)))
  {
    var selected := Selected(st.queued, interactionOnly, |st.queued|);
    if selected.None? {
      assert forall q :: q in st.queued ==> !Eligible(interactionOnly, q);
    } else {
      var r := st.queued[selected.value];
      assert r in st.queued;
      forall q | q in st.queued && Eligible(interactionOnly, q) ensures AtLeastAsUrgent(r.capture.job, q.capture.job) {
        var k :| 0 <= k < |st.queued| && st.queued[k] == q;
        SelectionIsUrgent(st.queued, interactionOnly, |st.queued|, k);
      }
      hide Selected, AtLeastAsUrgent, Eligible, SupersedesQueued, VersionIn;
      var outdated := Replaceable(st.inFlight, r.capture.job);
      forall q | q in Without(Dropped(st.queued, selected.value), outdated) && SupersedesQueued(r.capture.job, q.capture.job)
        ensures VersionIn(st.inFlight, q.capture.job)
      {
        assert !outdated(q);
      }
    }
  }

  /** Ties are broken by no consistent order: three requests of equal urgency can each precede the next in a circle, and
      then which one is popped depends on how the queue happens to be arranged. */
  lemma TiesDependOnArrangement(a: Request, b: Request, c: Request)
    requires
      var (x, y, z) := (a.capture.job, b.capture.job, c.capture.job);
      && x.key == y.key && z.key != x.key && x.generation > y.generation && y.sequence < z.sequence < x.sequence
      && x.sourceRevision == y.sourceRevision == z.sourceRevision && x.worldRevision == y.worldRevision == z.worldRevision
      && x.priority == y.priority == z.priority
    ensures
      var (x, y, z) := (a.capture.job, b.capture.job, c.capture.job);
      Precedes(x, y) && Precedes(y, z) && Precedes(z, x)
    ensures Selected([a, b, c], false, 3) == Some(2) && Selected([b, c, a], false, 3) == Some(2)
  {
    assert Selected([a, b, c], false, 1) == Some(0);
    assert Selected([a, b, c], false, 2) == Some(0);
    assert Selected([b, c, a], false, 1) == Some(0);
    assert Selected([b, c, a], false, 2) == Some(0);
  }

  /** The request a walk over the whole queue picks. */
  function Choice(s: seq<Request>, interactionOnly: bool): Option<Request> {
    var i := Selected(s, interactionOnly, |s|);
    if i.None? then None else Some(s[i.value])
  }

  /** An eligible request that precedes every other one. */
  ghost predicate PrecedesAllOthers(s: seq<Request>, interactionOnly: bool, r: Request) {
    && r in s && Eligible(interactionOnly, r)
    && forall q :: q in s && Eligible(interactionOnly, q) && q != r ==> Precedes(r.capture.job, q.capture.job)
  }

  lemma {:induction false} WalkKeepsTheFirstOfAll(s: seq<Request>, interactionOnly: bool, r: Request, k: nat, n: nat)
    requires PrecedesAllOthers(s, interactionOnly, r) && k < n <= |s| && s[k] == r
    ensures
      var i := Selected(s, interactionOnly, n);
      i.Some? && s[i.value] == r
    decreases n
  {
    var best := Selected(s, interactionOnly, n - 1);
    FirstOfAllAgainst(s, interactionOnly, r, n - 1);
    if best.Some? {
      FirstOfAllAgainst(s, interactionOnly, r, best.value);
    }
    hide Precedes, Eligible, PrecedesAllOthers;
    if k < n - 1 {
      WalkKeepsTheFirstOfAll(s, interactionOnly, r, k, n - 1);
    }
  }

  lemma FirstOfAllAgainst(s: seq<Request>, interactionOnly: bool, r: Request, k: nat)
    requires PrecedesAllOthers(s, interactionOnly, r) && k < |s|
    ensures Eligible(interactionOnly, r)
    ensures s[k] != r && Eligible(interactionOnly, s[k]) ==>
              Precedes(r.capture.job, s[k].capture.job) && !Precedes(s[k].capture.job, r.capture.job)
  {
    hide Precedes, Eligible;
    assert s[k] in s;
    PrecedenceIsOneWay(r.capture.job, s[k].capture.job);
  }

  lemma PrecedenceIsOneWay(a: Job, b: Job)
    ensures Precedes(a, b) ==> !Precedes(b, a)
  {}

  /** A walk whose first request is eligible and not preceded by the second never comes back to the second. */
  lemma {:induction false} WalkPassesOver(s: seq<Request>, interactionOnly: bool, n: nat)
    requires 2 <= n <= |s| && Eligible(interactionOnly, s[0]) && !Precedes(s[1].capture.job, s[0].capture.job)
    ensures Selected(s, interactionOnly, n).Some? && Selected(s, interactionOnly, n).value != 1
    decreases n
  {
    hide Precedes, Eligible;
    if n == 2 {
      assert Selected(s, interactionOnly, n - 1) == Some(0);
    } else {
      WalkPassesOver(s, interactionOnly, n - 1);
    }
  }

  lemma MovedToTheFront(s: seq<Request>, i: nat)
    requires i < |s|
    ensures multiset(s) == multiset{s[i]} + multiset(Dropped(s, i))
  {
    assert s == s[..i] + [s[i]] + s[i + 1..];
  }

  /** The same requests with q and r in front, in this order; r is nowhere else. */
  lemma BroughtToTheFront(s: seq<Request>, q: Request, r: Request) returns (t: seq<Request>)
    requires DistinctIds(s) && r in s && q in s && q != r
    ensures multiset(t) == multiset(s) && 2 <= |t| && t[0] == q && t[1] == r
    ensures forall k :: 2 <= k < |t| ==> t[k] != r
  {
    hide DistinctIds, Dropped;
    var i :| 0 <= i < |s| && s[i] == q;
    var others := Dropped(s, i);
    DroppedKeepsDistinct(s, i);
    MovedToTheFront(s, i);
    var j :| 0 <= j < |others| && others[j] == r;
    var rest := Dropped(others, j);
    DroppedKeepsDistinct(others, j);
    MovedToTheFront(others, j);
    t := [q] + ([r] + rest);
    assert multiset(t) == multiset{q} + (multiset{r} + multiset(rest));
    forall k | 2 <= k < |t| ensures t[k] != r {
      assert t[k] == rest[k - 2] && rest[k - 2] in rest;
    }
  }

  /** Some arrangement passes r over for q, when r does not precede q. */
  lemma ArrangementPassesOver(s: seq<Request>, interactionOnly: bool, r: Request, q: Request) returns (t: seq<Request>)
    requires DistinctIds(s) && r in s && q in s && q != r
    requires Eligible(interactionOnly, q) && !Precedes(r.capture.job, q.capture.job)
    ensures multiset(t) == multiset(s) && Choice(t, interactionOnly) != Some(r)
  {
    hide Precedes, Eligible, Selected, DistinctIds;
    t := BroughtToTheFront(s, q, r);
    WalkPassesOver(t, interactionOnly, |t|);
  }

  /** The pick is the same however the queue is arranged exactly when nothing is eligible or one eligible request precedes
      all the others. */
  lemma PickIsIndependentExactly(s: seq<Request>, interactionOnly: bool)
    requires DistinctIds(s)
    ensures (forall t :: multiset(t) == multiset(s) ==> Choice(t, interactionOnly) == Choice(s, interactionOnly))
       <==> (forall q :: q in s ==> !Eligible(interactionOnly, q)) || (exists r :: PrecedesAllOthers(s, interactionOnly, r))
  {
    hide Precedes, Eligible, DistinctIds;
    var chosen := Choice(s, interactionOnly);
    if r :| PrecedesAllOthers(s, interactionOnly, r) {
      forall t | multiset(t) == multiset(s) ensures Choice(t, interactionOnly) == Some(r) {
        SameMembers(s, t);
        var k :| 0 <= k < |t| && t[k] == r;
        WalkKeepsTheFirstOfAll(t, interactionOnly, r, k, |t|);
      }
    } else if chosen.None? {
      forall t | multiset(t) == multiset(s) ensures Choice(t, interactionOnly) == None {
        SameMembers(s, t);
        NothingToPick(s, interactionOnly);
        NothingToPick(t, interactionOnly);
      }
    } else {
      var r := chosen.value;
      NothingToPick(s, interactionOnly);
      assert !PrecedesAllOthers(s, interactionOnly, r);
      var q :| q in s && Eligible(interactionOnly, q) && q != r && !Precedes(r.capture.job, q.capture.job);
      var t := ArrangementPassesOver(s, interactionOnly, r, q);
    }
  }

  lemma SameMembers(s: seq<Request>, t: seq<Request>)
    requires multiset(t) == multiset(s)
    ensures forall r :: r in s <==> r in t
  {
    assert forall r :: r in s <==> r in multiset(s);
    assert forall r :: r in t <==> r in multiset(t);
  }

  lemma NothingToPick(s: seq<Request>, interactionOnly: bool)
    ensures Choice(s, interactionOnly).None? <==> forall q :: q in s ==> !Eligible(interactionOnly, q)
    ensures Choice(s, interactionOnly).Some? ==>
              Choice(s, interactionOnly).value in s && Eligible(interactionOnly, Choice(s, interactionOnly).value)
  {}
}
