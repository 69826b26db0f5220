/** The bounded shadow queue as a value: each locked method is one step from one queue state to the next. */
module ShadowQueues {
  import opened Numbers
  import opened ShadowJobs

  const INTERACTION_CAPTURE_RESERVE := 4
  const COVERAGE_CAPTURE_RESERVE := 4

  datatype Reservation = Reservation(id: nat, remaining: nat, job: Job)

  /** Counters; only the reserved slots are ever counted down. */
  datatype Metrics = Metrics(
    queued: nat, inFlight: nat, captured: nat, capacityRejections: nat, superseded: nat, reservedSlots: int,
    attempts: nat, reservationRejections: nat, reservedCaptures: nat, reservedFailures: nat, releasedSlots: nat,
    preMeshCaptures: nat, cpuOmittedCaptures: nat, priorityDequeues: nat, dequeueSuperseded: nat,
    matched: nat, mismatched: nat, stale: nat, unknown: nat, identityMismatches: nat,
    ready: nat, rejected: nat, residentStale: nat)

  const ZERO := Metrics(0, 0, 0, 0, 0, 0, 0, 0, 0, 0, 0, 0, 0, 0, 0, 0, 0, 0, 0, 0, 0, 0, 0)

  datatype QueueState = QueueState(
    enabled: bool, retain: bool, stage: Stage, capacity: nat, nextRequestId: nat, nextReservationId: nat,
    queued: seq<Request>, inFlight: seq<Request>, reservations: seq<Reservation>, metrics: Metrics)

  const IDLE := QueueState(false, false, PostMeshAuthority, 0, 1, 1, [], [], [], ZERO)

  // ---- Starting and stopping ----

  function Begin(st: QueueState, capacity: nat, retain: bool, stage: Stage): QueueState {
    if capacity == 0 || capacity > 16 then st else QueueState(true, retain, stage, capacity, 1, 1, [], [], [], ZERO)
  }

  function End(st: QueueState): QueueState {
    st.(enabled := false, retain := false, stage := PostMeshAuthority, capacity := 0, queued := [], inFlight := [],
        reservations := [], metrics := st.metrics.(queued := 0, inFlight := 0, reservedSlots := 0))
  }

  // ---- Occupancy ----

  function InteractionReserve(capacity: nat): nat {
    if capacity >= 16 then INTERACTION_CAPTURE_RESERVE else 0
  }

  function ClassLimit(capacity: nat, coverage: bool): int {
    capacity - InteractionReserve(capacity) - (if coverage || capacity < 16 then 0 else COVERAGE_CAPTURE_RESERVE)
  }

  /** Counted against the background limit, or, for jobs without coverage priority, against theirs. */
  predicate Background(c: Capture, coverage: bool) {
    !c.incremental && (coverage || !Coverage(c.job))
  }

  function RequestCount(s: seq<Request>, coverage: bool): nat {
    if |s| == 0 then 0
    else RequestCount(s[..|s| - 1], coverage) + (if Background(s[|s| - 1].capture, coverage) then 1 else 0)
  }

  function SlotCount(rs: seq<Reservation>, coverage: bool): nat {
    if |rs| == 0 then 0
    else
      var r := rs[|rs| - 1];
      SlotCount(rs[..|rs| - 1], coverage)
      + (if !Interaction(r.job) && (coverage || !Coverage(r.job)) then r.remaining else 0)
  }

  function Occupancy(st: QueueState, coverage: bool): nat {
    RequestCount(st.queued, coverage) + RequestCount(st.inFlight, coverage) + SlotCount(st.reservations, coverage)
  }

  function Occupied(st: QueueState): int {
    |st.queued| + |st.inFlight| + st.metrics.reservedSlots
  }

  // ---- Reserving ----

  /** Only these requests stay queued; the others count as superseded. */
  function Keeping(st: QueueState, kept: seq<Request>): QueueState
    requires |kept| <= |st.queued|
  {
    st.(queued := kept, metrics := st.metrics.(superseded := st.metrics.superseded + (|st.queued| - |kept|)))
  }

  function WithoutVersion(st: QueueState, j: Job): QueueState {
    Keeping(st, Without(st.queued, OfVersion(j)))
  }

  function BackgroundVictim(inFlight: seq<Request>, job: Job): Test {
    (q: Request) => !q.capture.incremental && !VersionIn(inFlight, q.capture.job) && VersionSupersedes(job, q.capture.job)
  }

  /** Drops outdated background versions until enough requests are gone or none is left to drop. */
  function DropBackground(st: QueueState, job: Job, required: int, released: nat): QueueState
    decreases |st.queued|
  {
    if released >= required then st
    else
      var i := FirstIndex(st.queued, BackgroundVictim(st.inFlight, job));
      if i == |st.queued| then st
      else
        var next := WithoutVersion(st, st.queued[i].capture.job);
        if |next.queued| == |st.queued| then st
        else DropBackground(next, job, required, released + (|st.queued| - |next.queued|))
  }

  /** Requests whose version is in flight come last; then the lowest priority; then the oldest. */
  predicate CheaperToDrop(inFlight: seq<Request>, a: Request, b: Request) {
    var protectedA, protectedB := VersionIn(inFlight, a.capture.job), VersionIn(inFlight, b.capture.job);
    if protectedA != protectedB then !protectedA
    else if a.capture.job.priority != b.capture.job.priority then a.capture.job.priority < b.capture.job.priority
    else a.capture.job.sequence < b.capture.job.sequence
  }

  /** The first cheapest of the first n requests. */
  function CheapestIndex(inFlight: seq<Request>, queued: seq<Request>, n: nat): (i: nat)
    requires 0 < n <= |queued|
    ensures i < n
  {
    if n == 1 then 0
    else
      var best := CheapestIndex(inFlight, queued, n - 1);
      if CheaperToDrop(inFlight, queued[n - 1], queued[best]) then n - 1 else best
  }

  predicate Lossless(st: QueueState) {
    st.retain && st.stage == PreMeshField
  }

  predicate MayDrop(lossless: bool, incoming: Job, queued: Job) {
    if lossless then VersionSupersedes(incoming, queued) else JobSupersedes(incoming, queued)
  }

  /** Drops the cheapest versions, as long as the incoming job supersedes them, until there is room. */
  function DropForRoom(st: QueueState, job: Job, required: int, released: nat): QueueState
    decreases |st.queued|
  {
    if released >= required || |st.queued| == 0 then st
    else
      var victim := st.queued[CheapestIndex(st.inFlight, st.queued, |st.queued|)].capture.job;
      if VersionIn(st.inFlight, victim) || !MayDrop(Lossless(st), job, victim) then st
      else
        var next := WithoutVersion(st, victim);
        if |next.queued| == |st.queued| then st
        else DropForRoom(next, job, required, released + (|st.queued| - |next.queued|))
  }

  function Mirrored(st: QueueState): QueueState {
    st.(metrics := st.metrics.(queued := |st.queued|))
  }

  datatype Granted = Granted(state: QueueState, id: nat)

  function Refused(st: QueueState): Granted {
    Granted(st.(metrics := st.metrics.(reservationRejections := st.metrics.reservationRejections + 1)), 0)
  }

  function SlotsFor(capacity: nat): nat {
    if capacity >= 2 then 2 else 1
  }

  /** A non-interaction job on a full-sized queue is limited to what its class may occupy. */
  predicate OverClassLimit(st: QueueState, job: Job) {
    && InteractionReserve(st.capacity) != 0 && !Interaction(job)
    && Occupancy(st, Coverage(job)) + SlotsFor(st.capacity) > ClassLimit(st.capacity, Coverage(job))
  }

  function MakeClassRoom(st: QueueState, job: Job): QueueState {
    if !OverClassLimit(st, job) then st
    else
      var required := Occupancy(st, Coverage(job)) + SlotsFor(st.capacity) - ClassLimit(st.capacity, Coverage(job));
      Mirrored(DropBackground(st, job, required, 0))
  }

  function MakeRoom(st: QueueState, job: Job): QueueState {
    var free := st.capacity - Occupied(st);
    if free < 0 || SlotsFor(st.capacity) <= free then st
    else Mirrored(DropForRoom(st, job, SlotsFor(st.capacity) - free, 0))
  }

  function GrantOrRefuse(st: QueueState, job: Job): Granted {
    var slots := SlotsFor(st.capacity);
    if slots > st.capacity - Occupied(st) then Refused(st)
    else
      Granted(st.(nextReservationId := st.nextReservationId + 1,
                  reservations := st.reservations + [Reservation(st.nextReservationId, slots, job)],
                  metrics := st.metrics.(reservedSlots := st.metrics.reservedSlots + slots)), st.nextReservationId)
  }

  function Tried(st: QueueState): QueueState {
    st.(metrics := st.metrics.(attempts := st.metrics.attempts + 1))
  }

  function Reserve(st: QueueState, job: Job): Granted {
    var tried := Tried(st);
    if !st.enabled then Refused(tried)
    else
      var classed := MakeClassRoom(tried, job);
      if OverClassLimit(classed, job) then Refused(classed)
      else GrantOrRefuse(MakeRoom(classed, job), job)
  }

  function ReservationIndex(rs: seq<Reservation>, id: nat): (i: nat)
    ensures i <= |rs| && (i < |rs| ==> rs[i].id == id) && (forall k :: 0 <= k < i ==> rs[k].id != id)
  {
    if |rs| == 0 || rs[0].id == id then 0 else 1 + ReservationIndex(rs[1..], id)
  }

  function Released(st: QueueState, id: nat): QueueState {
    var i := ReservationIndex(st.reservations, id);
    if id == 0 || i == |st.reservations| then st
    else
      var n := st.reservations[i].remaining;
      st.(reservations := st.reservations[..i] + st.reservations[i + 1..],
          metrics := st.metrics.(reservedSlots := st.metrics.reservedSlots - n,
                                 releasedSlots := st.metrics.releasedSlots + n))
  }

  // ---- Capturing ----

  predicate Substantial(c: Capture) {
    c.records != [] || c.retainedPages != []
  }

  /** Pages and meshes are kept only when publication authority is retained. */
  function Retained(retain: bool, c: Capture): Capture {
    if retain then c else c.(retainedPages := [], terrainMesh := None, waterMesh := None)
  }

  function Replaceable(inFlight: seq<Request>, job: Job): Test {
    (q: Request) => !VersionIn(inFlight, q.capture.job) && SupersedesQueued(job, q.capture.job)
  }

  function ReplaceableBackground(inFlight: seq<Request>, job: Job): Test {
    (q: Request) => !q.capture.incremental && !VersionIn(inFlight, q.capture.job) && SupersedesQueued(job, q.capture.job)
  }

  /** The request takes place i of the queue, or joins its end. */
  function Admitted(st: QueueState, c: Capture, i: nat): QueueState
    requires i <= |st.queued|
  {
    var r := Request(c, st.nextRequestId);
    var queued := if i < |st.queued| then st.queued[i := r] else st.queued + [r];
    var m := st.metrics;
    st.(queued := queued, nextRequestId := st.nextRequestId + 1,
        metrics := m.(captured := m.captured + 1, queued := |queued|,
                      superseded := m.superseded + (if i < |st.queued| then 1 else 0),
                      preMeshCaptures := m.preMeshCaptures + (if st.stage == PreMeshField then 1 else 0),
                      cpuOmittedCaptures := m.cpuOmittedCaptures + (if c.cpuMeshOmitted then 1 else 0)))
  }

  datatype Answer = Answer(state: QueueState, ok: bool)

  predicate Redeemable(st: QueueState, id: nat, c: Capture) {
    var i := ReservationIndex(st.reservations, id);
    && id != 0 && Substantial(c) && st.enabled && c.stage == st.stage
    && i < |st.reservations| && st.reservations[i].remaining != 0 && SameVersion(st.reservations[i].job, c.job)
  }

  function Redeemed(rs: seq<Reservation>, i: nat): seq<Reservation>
    requires i < |rs| && rs[i].remaining != 0
  {
    if rs[i].remaining == 1 then rs[..i] + rs[i + 1..] else rs[i := rs[i].(remaining := rs[i].remaining - 1)]
  }

  function Spent(st: QueueState, i: nat): QueueState
    requires i < |st.reservations| && st.reservations[i].remaining != 0
  {
    st.(reservations := Redeemed(st.reservations, i),
        metrics := st.metrics.(reservedSlots := st.metrics.reservedSlots - 1,
                               reservedCaptures := st.metrics.reservedCaptures + 1))
  }

  function CaptureReserved(st: QueueState, id: nat, c: Capture): Answer {
    if !Redeemable(st, id, c) then
      Answer(st.(metrics := st.metrics.(reservedFailures := st.metrics.reservedFailures + 1)), false)
    else
      Answer(Admitted(Spent(st, ReservationIndex(st.reservations, id)), Retained(st.retain, c),
                      FirstIndex(st.queued, Replaceable(st.inFlight, c.job))), true)
  }

  function Saturated(st: QueueState): Answer {
    Answer(st.(metrics := st.metrics.(capacityRejections := st.metrics.capacityRejections + 1)), false)
  }

  /** Admission only in the place of another request. */
  function Replacing(st: QueueState, c: Capture, i: nat): Answer
    requires i <= |st.queued|
  {
    if i == |st.queued| then Saturated(st) else Answer(Admitted(st, c, i), true)
  }

  /** The class is full: only an outdated background request for the same key may give up its place. */
  predicate ClassIsFull(st: QueueState, c: Capture) {
    && InteractionReserve(st.capacity) != 0 && !c.incremental
    && Occupancy(st, Coverage(c.job)) >= ClassLimit(st.capacity, Coverage(c.job))
  }

  function Captured(st: QueueState, c: Capture): Answer {
    if !Substantial(c) || !st.enabled || c.stage != st.stage then Answer(st, false)
    else if ClassIsFull(st, c) then
      Replacing(st, c, FirstIndex(st.queued, ReplaceableBackground(st.inFlight, c.job)))
    else if Occupied(st) >= st.capacity then
      Replacing(st, Retained(st.retain, c), FirstIndex(st.queued, Replaceable(st.inFlight, c.job)))
    else Answer(Admitted(st, Retained(st.retain, c), |st.queued|), true)
  }

  // ---- Taking work ----

  predicate Eligible(interactionOnly: bool, r: Request) {
    !interactionOnly || r.capture.incremental || r.capture.job.priority >= VISIBILITY_COVERAGE_PRIORITY
  }

  /** The request a walk over the first n leaves selected. */
  function Selected(s: seq<Request>, interactionOnly: bool, n: nat): (i: Option<nat>)
    requires n <= |s|
    ensures i.Some? ==> i.value < n && Eligible(interactionOnly, s[i.value])
    ensures i.None? <==> forall k :: 0 <= k < n ==> !Eligible(interactionOnly, s[k])
  {
    if n == 0 then None
    else
      var best := Selected(s, interactionOnly, n - 1);
      if Eligible(interactionOnly, s[n - 1]) && (best.None? || Precedes(s[n - 1].capture.job, s[best.value].capture.job))
      then Some(n - 1) else best
  }

  /** What is remembered of a request in flight. */
  function Tracked(r: Request): Request {
    r.(capture := r.capture.(incremental := false, dirtyBricks := 0xFF, dirtyBounds := None, records := []))
  }

  /** Request i goes in flight and only `kept` stay queued; the others count as coalesced. */
  function Moved(st: QueueState, i: nat, kept: seq<Request>): QueueState
    requires i < |st.queued| && |kept| < |st.queued|
  {
    var m, coalesced := st.metrics, |st.queued| - 1 - |kept|;
    st.(queued := kept, inFlight := st.inFlight + [Tracked(st.queued[i])],
        metrics := m.(queued := |kept|, inFlight := |st.inFlight| + 1,
                      superseded := m.superseded + coalesced, dequeueSuperseded := m.dequeueSuperseded + coalesced,
                      priorityDequeues := m.priorityDequeues + (if i != 0 then 1 else 0)))
  }

  datatype Popped = Popped(state: QueueState, request: Option<Request>)

  function Pop(st: QueueState, interactionOnly: bool): Popped {
    var selected := Selected(st.queued, interactionOnly, |st.queued|);
    if !st.enabled || selected.None? then Popped(st, None)
    else
      var r, others := st.queued[selected.value], Dropped(st.queued, selected.value);
      Popped(Moved(st, selected.value, Without(others, Replaceable(st.inFlight, r.capture.job))), Some(r))
  }

  // ---- Resolving ----

  datatype Status = Matched | Mismatched | Stale | Unknown | WrongIdentity | Ready | Rejected

  datatype Resolution = Resolution(state: QueueState, status: Status, request: Option<Request>)

  function NewerThan(j: Job): Test {
    (r: Request) => r.capture.job.key == j.key
                    && (r.capture.job.generation > j.generation || r.capture.job.worldRevision > j.worldRevision)
  }

  predicate Latest(st: QueueState, j: Job) {
    FirstIndex(st.queued, NewerThan(j)) == |st.queued| && FirstIndex(st.inFlight, NewerThan(j)) == |st.inFlight|
  }

  function Resolved(st: QueueState, i: nat): QueueState
    requires i < |st.inFlight|
  {
    st.(inFlight := Dropped(st.inFlight, i), metrics := st.metrics.(inFlight := |st.inFlight| - 1))
  }

  function WithOutcome(m: Metrics, status: Status, resident: bool): Metrics {
    match status
    case Matched => m.(matched := m.matched + 1)
    case Mismatched => m.(mismatched := m.mismatched + 1)
    case Stale => if resident then m.(residentStale := m.residentStale + 1) else m.(stale := m.stale + 1)
    case Unknown => m.(unknown := m.unknown + 1)
    case WrongIdentity => m.(identityMismatches := m.identityMismatches + 1)
    case Ready => m.(ready := m.ready + 1)
    case Rejected => m.(rejected := m.rejected + 1)
  }

  datatype Verdict =
    | Completion(sourceRevision: U64, worldRevision: U64, matched: bool)
    | Validation(sourceRevision: U64)
    | Rejection

  /** What the result is worth once its request has left the queue. */
  function Judge(st: QueueState, r: Request, identity: Identity, v: Verdict): Status {
    var j := r.capture.job;
    if !IdentityMatches(r, identity) then WrongIdentity
    else match v
      case Completion(source, world, matched) =>
        if !st.enabled || j.sourceRevision != source || j.worldRevision != world || !Latest(st, j) then Stale
        else if matched then Matched else Mismatched
      case Validation(source) =>
        if !st.enabled || j.sourceRevision != source || !Latest(st, j) then Stale else Ready
      case Rejection => Rejected
  }

  function Resolve(st: QueueState, id: nat, identity: Identity, v: Verdict): Resolution {
    var i := FirstIndex(st.inFlight, WithId(id));
    if i == |st.inFlight| then
      Resolution(st.(metrics := WithOutcome(st.metrics, Unknown, false)), Unknown, None)
    else
      var r, left := st.inFlight[i], Resolved(st, i);
      var status := Judge(left, r, identity, v);
      Resolution(left.(metrics := WithOutcome(left.metrics, status, !v.Completion?)), status, Some(r))
  }

  predicate HasVersion(st: QueueState, j: Job) {
    || VersionIn(st.queued, j) || VersionIn(st.inFlight, j)
    || (exists r :: r in st.reservations && SameVersion(r.job, j))
  }

  // ---- Runs ----

  datatype Call =
    | BeginCall(capacity: nat, retain: bool, stage: Stage)
    | EndCall
    | ReserveCall(job: Job)
    | ReservedCaptureCall(id: nat, capture: Capture)
    | ReleaseCall(id: nat)
    | CaptureCall(capture: Capture)
    | PopCall(interactionOnly: bool)
    | ResolveCall(id: nat, identity: Identity, verdict: Verdict)

  function Next(st: QueueState, call: Call): QueueState {
    match call
    case BeginCall(capacity, retain, stage) => Begin(st, capacity, retain, stage)
    case EndCall => End(st)
    case ReserveCall(job) => Reserve(st, job).state
    case ReservedCaptureCall(id, c) => CaptureReserved(st, id, c).state
    case ReleaseCall(id) => Released(st, id)
    case CaptureCall(c) => Captured(st, c).state
    case PopCall(interactionOnly) => Pop(st, interactionOnly).state
    case ResolveCall(id, identity, v) => Resolve(st, id, identity, v).state
  }

  /** The state after any sequence of calls, in whatever order threads got the lock. */
  function Run(st: QueueState, calls: seq<Call>): QueueState
    decreases |calls|
  {
    if |calls| == 0 then st else Run(Next(st, calls[0]), calls[1..])
  }
}
