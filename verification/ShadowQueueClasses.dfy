/** The classes of a full-sized shadow queue: what counts against which bound, and how the slots kept for edits are lost. */
module ShadowQueueClasses {
  import opened ShadowJobs
  import opened ShadowQueues
  import opened ShadowQueueInvariants
  import opened ShadowQueueAnswers

  // ---- What counts ----

  predicate Edit(j: Job) { j.priority == COMMITTED_EDIT_PRIORITY }

  /** Neither below the coverage priority nor a committed edit. */
  predicate PlayerVisible(j: Job) { VISIBILITY_COVERAGE_PRIORITY <= j.priority && !Edit(j) }

  ghost function BackgroundRequests(s: seq<Request>, ordinary: bool): set<int> {
    set i | 0 <= i < |s| && !s[i].capture.incremental && (ordinary ==> !PlayerVisible(s[i].capture.job))
  }

  ghost function BackgroundSlots(rs: seq<Reservation>, ordinary: bool): set<(int, int)> {
    set i, k | 0 <= i < |rs| && !Edit(rs[i].job) && (ordinary ==> !PlayerVisible(rs[i].job)) && 0 <= k < rs[i].remaining
      :: (i, k)
  }

  /** Requests that are no incremental edits, and slots not reserved by edits; of ordinary priority only, if asked. */
  ghost function Held(st: QueueState, ordinary: bool): nat {
    |BackgroundRequests(st.queued, ordinary)| + |BackgroundRequests(st.inFlight, ordinary)|
    + |BackgroundSlots(st.reservations, ordinary)|
  }

  lemma OneMoreRequest(s: seq<Request>, ordinary: bool)
    requires |s| > 0
    ensures
      var n, fewer := |s| - 1, BackgroundRequests(s[..|s| - 1], ordinary);
      BackgroundRequests(s, ordinary) == (if Background(s[n].capture, !ordinary) then fewer + {n} else fewer) && n !in fewer
  {}

  lemma {:induction false} RequestsAreCounted(s: seq<Request>, ordinary: bool)
    ensures RequestCount(s, !ordinary) == |BackgroundRequests(s, ordinary)|
    decreases |s|
  {
    hide Background;
    if |s| > 0 {
      OneMoreRequest(s, ordinary);
      hide BackgroundRequests;
      RequestsAreCounted(s[..|s| - 1], ordinary);
    }
  }

  ghost function SlotsAt(i: int, n: nat): set<(int, int)> {
    set k | 0 <= k < n :: (i, k)
  }

  lemma {:induction false} SlotsAtAre(i: int, n: nat)
    ensures |SlotsAt(i, n)| == n
    decreases n
  {
    if n > 0 {
      SlotsAtAre(i, n - 1);
      assert SlotsAt(i, n) == SlotsAt(i, n - 1) + {(i, n - 1)};
    }
  }

  predicate CountedReservation(r: Reservation, ordinary: bool) {
    !Interaction(r.job) && (!ordinary || !Coverage(r.job))
  }

  lemma OneMoreReservation(rs: seq<Reservation>, ordinary: bool)
    requires |rs| > 0
    ensures
      var n, fewer := |rs| - 1, BackgroundSlots(rs[..|rs| - 1], ordinary);
      var last := if CountedReservation(rs[n], ordinary) then SlotsAt(n, rs[n].remaining) else {};
      BackgroundSlots(rs, ordinary) == fewer + last && fewer !! last
  {
    var n, fewer := |rs| - 1, BackgroundSlots(rs[..|rs| - 1], ordinary);
    var last := if CountedReservation(rs[n], ordinary) then SlotsAt(n, rs[n].remaining) else {};
    forall x ensures x in BackgroundSlots(rs, ordinary) <==> x in fewer || x in last {
      if 0 <= x.0 < n { assert rs[..n][x.0] == rs[x.0]; }
    }
  }

  lemma {:induction false} SlotsAreCounted(rs: seq<Reservation>, ordinary: bool)
    ensures SlotCount(rs, !ordinary) == |BackgroundSlots(rs, ordinary)|
    decreases |rs|
  {
    if |rs| > 0 {
      var n := |rs| - 1;
      OneMoreReservation(rs, ordinary);
      SlotsAtAre(n, rs[n].remaining);
      hide BackgroundSlots, SlotsAt, Interaction, Coverage;
      SlotsAreCounted(rs[..n], ordinary);
      assert SlotCount(rs, !ordinary)
          == SlotCount(rs[..n], !ordinary) + (if CountedReservation(rs[n], ordinary) then rs[n].remaining else 0);
    }
  }

  lemma OccupancyIsHeld(st: QueueState)
    ensures Occupancy(st, true) == Held(st, false) && Occupancy(st, false) == Held(st, true)
  {
    RequestsAreCounted(st.queued, false);
    RequestsAreCounted(st.queued, true);
    RequestsAreCounted(st.inFlight, false);
    RequestsAreCounted(st.inFlight, true);
    SlotsAreCounted(st.reservations, false);
    SlotsAreCounted(st.reservations, true);
    hide BackgroundRequests, BackgroundSlots, RequestCount, SlotCount;
  }

  // ---- The bounds ----

  /** Player-visible work may fill twelve of sixteen places, together with ordinary work; ordinary work alone eight. */
  ghost predicate Bound(st: QueueState, job: Job, more: nat) {
    if PlayerVisible(job) then Held(st, false) + more <= 12 else Held(st, true) + more <= 8
  }

  lemma CaptureBound(st: QueueState, c: Capture)
    requires st.capacity <= 16
    ensures ClassIsFull(st, c) <==> st.capacity == 16 && !c.incremental && !Bound(st, c.job, 1)
  {
    OccupancyIsHeld(st);
    hide Held, Occupancy;
  }

  lemma JobBound(st: QueueState, job: Job)
    requires st.capacity <= 16
    ensures OverClassLimit(st, job) <==> st.capacity == 16 && !Edit(job) && !Bound(st, job, 2)
  {
    OccupancyIsHeld(st);
    hide Held, Occupancy;
  }

  /** When a capture is admitted, by the numbers. */
  lemma CaptureIsAdmittedExactly(st: QueueState, c: Capture)
    requires st.capacity <= 16
    ensures Captured(st, c).ok
       <==> (c.records != [] || c.retainedPages != []) && st.enabled && c.stage == st.stage
            && (if st.capacity == 16 && !c.incremental && !Bound(st, c.job, 1) then HasOutdated(st, c.job, true)
                else Occupied(st) < st.capacity || HasOutdated(st, c.job, false))
  {
    hide Bound, HasOutdated, Captured, ClassIsFull, Occupied;
    CaptureIsRefusedOnlyWhenSaturated(st, c);
    CaptureBound(st, c);
  }

  // ---- Counting after a step ----

  lemma {:induction false} CountsAdd(a: seq<Request>, b: seq<Request>, coverage: bool)
    ensures RequestCount(a + b, coverage) == RequestCount(a, coverage) + RequestCount(b, coverage)
    decreases |b|
  {
    if |b| == 0 {
      assert a + b == a;
    } else {
      assert (a + b)[..|a + b| - 1] == a + b[..|b| - 1];
      CountsAdd(a, b[..|b| - 1], coverage);
    }
  }

  lemma CountOfOne(r: Request, coverage: bool)
    ensures RequestCount([r], coverage) == if Background(r.capture, coverage) then 1 else 0
  {
    assert [r][..0] == [];
  }

  lemma {:induction false} FewerAreCounted(s: seq<Request>, p: Test, coverage: bool)
    ensures RequestCount(Without(s, p), coverage) <= RequestCount(s, coverage)
    decreases |s|
  {
    if |s| > 0 {
      hide Background;
      FewerAreCounted(s[1..], p, coverage);
      CountsAdd([s[0]], s[1..], coverage);
      CountsAdd([s[0]], Without(s[1..], p), coverage);
      assert [s[0]] + s[1..] == s;
      assert Without(s, p) == if p(s[0]) then Without(s[1..], p) else [s[0]] + Without(s[1..], p);
    }
  }

  lemma WithoutVersionCountsNoMore(st: QueueState, j: Job, coverage: bool)
    ensures RequestCount(WithoutVersion(st, j).queued, coverage) <= RequestCount(st.queued, coverage)
    ensures |WithoutVersion(st, j).queued| <= |st.queued|
  {
    FewerAreCounted(st.queued, OfVersion(j), coverage);
  }

  lemma {:induction false} DroppingCountsNoMore(st: QueueState, job: Job, required: int, released: nat, coverage: bool)
    ensures RequestCount(DropForRoom(st, job, required, released).queued, coverage) <= RequestCount(st.queued, coverage)
    decreases |st.queued|
  {
    hide MayDrop, VersionIn, RequestCount, CheapestIndex, Lossless, WithoutVersion;
    if !(released >= required || |st.queued| == 0) {
      var victim := st.queued[CheapestIndex(st.inFlight, st.queued, |st.queued|)].capture.job;
      var next := WithoutVersion(st, victim);
      WithoutVersionCountsNoMore(st, victim, coverage);
      if |next.queued| != |st.queued| {
        DroppingCountsNoMore(next, job, required, released + (|st.queued| - |next.queued|), coverage);
      }
    }
  }

  lemma MakingRoomCountsNoMore(st: QueueState, job: Job, coverage: bool)
    ensures Occupancy(MakeRoom(st, job), coverage) <= Occupancy(st, coverage)
    ensures MakeRoom(st, job).capacity == st.capacity
  {
    hide DropForRoom, RequestCount, SlotCount, GaveWay, DistinctIds, SlotsFor, Occupied;
    var required := SlotsFor(st.capacity) - (st.capacity - Occupied(st));
    DroppingCountsNoMore(st, job, required, 0, coverage);
    DropForRoomShrinks(st, job, required, 0);
    assert DropForRoom(st, job, required, 0) == Keeping(st, DropForRoom(st, job, required, 0).queued);
  }

  // ---- What is admitted stays in its class ----

  /** A granted reservation leaves its own class within its bound. */
  lemma GrantStaysInItsClass(st: QueueState, job: Job)
    requires Inv(st) && st.capacity == 16 && Reserve(st, job).id != 0 && !Edit(job)
    ensures Bound(Reserve(st, job).state, job, 0)
  {
    TryingKeepsInv(st);
    var classed := MakeClassRoom(Tried(st), job);
    MadeClassRoom(Tried(st), job);
    MakingRoomCountsNoMore(classed, job, Coverage(job));
    var made := MakeRoom(classed, job);
    GrantCounts(made, job);
    OccupancyIsHeld(Reserve(st, job).state);
    hide Inv, MakeClassRoom, MakeRoom, Held, Occupancy;
  }

  lemma GrantCounts(made: QueueState, job: Job)
    requires GrantOrRefuse(made, job).id != 0
    ensures
      var next := GrantOrRefuse(made, job).state;
      forall coverage :: Occupancy(next, coverage)
        == Occupancy(made, coverage) + (if CountedReservation(Reservation(0, 0, job), !coverage) then SlotsFor(made.capacity) else 0)
  {
    var next := GrantOrRefuse(made, job).state;
    assert next.reservations[..|made.reservations|] == made.reservations;
    hide RequestCount;
  }

  // ---- How the slots kept for edits are lost ----

  lemma {:induction false} CountUpdated(s: seq<Request>, i: nat, r: Request, coverage: bool)
    requires i < |s|
    ensures RequestCount(s[i := r], coverage) + (if Background(s[i].capture, coverage) then 1 else 0)
         == RequestCount(s, coverage) + (if Background(r.capture, coverage) then 1 else 0)
    decreases |s|
  {
    hide Background;
    var n := |s| - 1;
    if i < n {
      CountUpdated(s[..n], i, r, coverage);
      assert s[i := r][..n] == s[..n][i := r];
    } else {
      assert s[i := r][..n] == s[..n];
    }
  }

  lemma AdmittedCounts(st: QueueState, c: Capture, i: nat)
    requires i <= |st.queued|
    ensures Occupancy(Admitted(st, c, i), true) + (if i < |st.queued| && !st.queued[i].capture.incremental then 1 else 0)
         == Occupancy(st, true) + (if c.incremental then 0 else 1)
  {
    var r := Request(c, st.nextRequestId);
    if i < |st.queued| {
      CountUpdated(st.queued, i, r, true);
    } else {
      CountsAdd(st.queued, [r], true);
      CountOfOne(r, true);
    }
    hide RequestCount, SlotCount;
  }

  /** The first queued request, with no sibling in flight, that is an older version of the job's key is an edit. */
  predicate ReplacesAnEdit(st: QueueState, job: Job) {
    var i := FirstIndex(st.queued, Replaceable(st.inFlight, job));
    i < |st.queued| && st.queued[i].capture.incremental
  }

  /** A capture takes a thirteenth place for other work exactly when it is ordinary, player-visible work has left ordinary
      work short of its eight, and it finds room or replaces an edit: each class is only held against its own bound. */
  lemma CaptureTakesAnEditPlace(st: QueueState, c: Capture)
    requires st.capacity == 16 && Held(st, false) <= 12 && Captured(st, c).ok
    ensures Held(Captured(st, c).state, false) > 12
       <==> && !c.incremental && !PlayerVisible(c.job) && Held(st, false) == 12 && Held(st, true) < 8
            && (Occupied(st) < 16 || ReplacesAnEdit(st, c.job))
  {
    hide Held, Occupancy, Admitted, Retained, HasOutdated, Occupied;
    CaptureBound(st, c);
    OccupancyIsHeld(st);
    OccupancyIsHeld(Captured(st, c).state);
    RetainedIsAlike(st.retain, c);
    if ClassIsFull(st, c) {
      var i := FirstIndex(st.queued, ReplaceableBackground(st.inFlight, c.job));
      assert ReplaceableBackground(st.inFlight, c.job)(st.queued[i]);
      AdmittedCounts(st, c, i);
    } else {
      var i := if Occupied(st) < 16 then |st.queued| else FirstIndex(st.queued, Replaceable(st.inFlight, c.job));
      assert Captured(st, c).state == Admitted(st, Retained(st.retain, c), i);
      AdmittedCounts(st, Retained(st.retain, c), i);
    }
  }

  lemma RetainedIsAlike(retain: bool, c: Capture)
    ensures Retained(retain, c).incremental == c.incremental && Retained(retain, c).job == c.job
  {}

  /** Likewise a reservation that finds room for its two slots. */
  lemma ReservationTakesAnEditPlace(st: QueueState, job: Job)
    requires Inv(st) && st.enabled && st.capacity == 16 && Occupied(st) <= 14 && Held(st, false) <= 12
    requires Edit(job) || Bound(st, job, 2)
    ensures Reserve(st, job).id != 0
    ensures Held(Reserve(st, job).state, false) > 12 <==> !Edit(job) && !PlayerVisible(job) && Held(st, false) > 10
  {
    assert st.nextReservationId > 0;
    hide Inv, Held, Occupancy, Occupied, DropBackground, DropForRoom, OverClassLimit, Stuck;
    var tried := Tried(st);
    JobBound(st, job);
    CountersAreInvisible(st, tried, job);
    EnoughRoomIsKept(tried, job);
    assert MakeClassRoom(tried, job) == tried;
    GrantCounts(tried, job);
    OccupancyIsHeld(st);
    OccupancyIsHeld(tried);
    OccupancyIsHeld(Reserve(st, job).state);
    HeldIgnoresCounters(st);
  }

  lemma HeldIgnoresCounters(st: QueueState)
    ensures Held(Tried(st), false) == Held(st, false)
  {}

  // ---- Which work a worker is given ----

  /** A worker for interaction is given edits and player-visible work only, and gets nothing exactly when there is none. */
  lemma WorkersGetTheirWork(st: QueueState, interactionOnly: bool)
    ensures
      var p := Pop(st, interactionOnly);
      && (p.request.None? <==>
            !st.enabled || forall r :: r in st.queued ==>
              interactionOnly && !r.capture.incremental && r.capture.job.priority < VISIBILITY_COVERAGE_PRIORITY)
      && (p.request.Some? && interactionOnly ==>
            p.request.value.capture.incremental || p.request.value.capture.job.priority >= VISIBILITY_COVERAGE_PRIORITY)
  {
    hide Moved, Without, Selected;
    var selected := Selected(st.queued, interactionOnly, |st.queued|);
    if r :| r in st.queued && Eligible(interactionOnly, r) {
      var k :| 0 <= k < |st.queued| && st.queued[k] == r;
      assert selected.Some?;
    }
    assert selected.Some? ==> st.queued[selected.value] in st.queued;
  }

  // ---- A run that locks edits out ----

  /** Captures that are no edits: the first twelve player-visible, the others ordinary. */
  predicate TwelveThenOrdinary(cs: seq<Capture>, stage: Stage) {
    forall k :: 0 <= k < |cs| ==>
      && Substantial(cs[k]) && cs[k].stage == stage && !cs[k].incremental && (PlayerVisible(cs[k].job) <==> k < 12)
  }

  /** The queue holds just these captures, in this order. */
  ghost predicate Filled(st: QueueState, retain: bool, stage: Stage, cs: seq<Capture>) {
    && st.enabled && st.capacity == 16 && st.retain == retain && st.stage == stage
    && st.inFlight == [] && st.reservations == [] && st.metrics.reservedSlots == 0 && |st.queued| == |cs|
    && (forall k :: 0 <= k < |cs| ==> st.queued[k].capture.job == cs[k].job)
    && Occupancy(st, true) == |cs| && Occupancy(st, false) == if |cs| <= 12 then 0 else |cs| - 12
  }

  lemma OneMoreJoins(st: QueueState, retain: bool, stage: Stage, done: seq<Capture>, c: Capture)
    requires Filled(st, retain, stage, done) && |done| < 16 && TwelveThenOrdinary(done + [c], stage)
    ensures Filled(Captured(st, c).state, retain, stage, done + [c])
  {
    hide Occupancy, Retained;
    assert (done + [c])[|done|] == c;
    RetainedIsAlike(retain, c);
    assert Captured(st, c).state == Admitted(st, Retained(retain, c), |st.queued|);
    forall coverage ensures Occupancy(Captured(st, c).state, coverage)
      == Occupancy(st, coverage) + (if Background(c, coverage) then 1 else 0)
    {
      JoiningCounts(st, Retained(retain, c), coverage);
    }
  }

  lemma JoiningCounts(st: QueueState, c: Capture, coverage: bool)
    ensures Occupancy(Admitted(st, c, |st.queued|), coverage)
         == Occupancy(st, coverage) + (if Background(c, coverage) then 1 else 0)
  {
    var r := Request(c, st.nextRequestId);
    CountsAdd(st.queued, [r], coverage);
    CountOfOne(r, coverage);
    hide RequestCount, SlotCount;
  }

  function Offering(cs: seq<Capture>): (calls: seq<Call>) {
    seq(|cs|, i requires 0 <= i < |cs| => CaptureCall(cs[i]))
  }

  lemma {:induction false} AllJoin(st: QueueState, retain: bool, stage: Stage, done: seq<Capture>, more: seq<Capture>)
    requires Filled(st, retain, stage, done) && |done + more| <= 16 && TwelveThenOrdinary(done + more, stage)
    ensures Filled(Run(st, Offering(more)), retain, stage, done + more)
    decreases |more|
  {
    hide Filled, Captured, TwelveThenOrdinary;
    if |more| == 0 {
      assert done + more == done;
    } else {
      var next := Captured(st, more[0]).state;
      assert (done + more)[..|done| + 1] == done + [more[0]];
      FirstOnes(done + more, |done| + 1, stage);
      OneMoreJoins(st, retain, stage, done, more[0]);
      assert done + [more[0]] + more[1..] == done + more;
      AllJoin(next, retain, stage, done + [more[0]], more[1..]);
      assert Offering(more)[1..] == Offering(more[1..]);
    }
  }

  lemma FirstOnes(cs: seq<Capture>, n: nat, stage: Stage)
    requires n <= |cs| && TwelveThenOrdinary(cs, stage)
    ensures TwelveThenOrdinary(cs[..n], stage)
  {}

  lemma NothingIsFilled(was: QueueState, capacity: nat, retain: bool, stage: Stage)
    requires capacity == 16
    ensures Filled(Begin(was, capacity, retain, stage), retain, stage, [])
  {
    hide Occupancy;
    var st := Begin(was, capacity, retain, stage);
    forall coverage ensures Occupancy(st, coverage) == 0 {
      NothingCounts(st, coverage);
    }
  }

  lemma NothingCounts(st: QueueState, coverage: bool)
    requires |st.queued| == |st.inFlight| == |st.reservations| == 0
    ensures Occupancy(st, coverage) == 0
  {}

  lemma FirstCall(st: QueueState, call: Call, calls: seq<Call>)
    ensures Run(st, [call] + calls) == Run(Next(st, call), calls)
  {
    assert ([call] + calls)[1..] == calls;
    hide Next;
  }

  /** After any start, twelve player-visible captures and then four ordinary ones take all sixteen places. The capture of an
      edit elsewhere is refused, and in lossless mode its reservation too. */
  lemma EditsAreLockedOut(was: QueueState, cs: seq<Capture>, retain: bool, stage: Stage, e: Capture)
    requires |cs| == 16 && TwelveThenOrdinary(cs, stage) && Edit(e.job)
    requires forall k :: 0 <= k < |cs| ==> cs[k].job.key != e.job.key && cs[k].job.sourceRevision == e.job.sourceRevision
    ensures var st := Run(was, [BeginCall(16, retain, stage)] + Offering(cs));
      && |st.queued| == 16 && (forall k :: 0 <= k < 16 ==> st.queued[k].capture.job == cs[k].job)
      && !Captured(st, e).ok && (retain && stage == PreMeshField ==> Reserve(st, e.job).id == 0)
  {
    hide TwelveThenOrdinary, Captured, Reserve, Filled, Run, Begin;
    var begun := Begin(was, 16, retain, stage);
    NothingIsFilled(was, 16, retain, stage);
    assert [] + cs == cs;
    AllJoin(begun, retain, stage, [], cs);
    FirstCall(was, BeginCall(16, retain, stage), Offering(cs));
    var st := Run(begun, Offering(cs));
    NoPlaceForEdits(st, retain, stage, cs, e);
  }

  lemma NoPlaceForEdits(st: QueueState, retain: bool, stage: Stage, cs: seq<Capture>, e: Capture)
    requires Filled(st, retain, stage, cs) && |cs| == 16 && Edit(e.job)
    requires forall k :: 0 <= k < |cs| ==> cs[k].job.key != e.job.key && cs[k].job.sourceRevision == e.job.sourceRevision
    ensures |st.queued| == 16 && (forall k :: 0 <= k < 16 ==> st.queued[k].capture.job == cs[k].job)
    ensures !Captured(st, e).ok
    ensures retain && stage == PreMeshField ==> Reserve(st, e.job).id == 0
  {
    CaptureIsAdmittedExactly(st, e);
    assert !HasOutdated(st, e.job, false) && !HasOutdated(st, e.job, true);
    hide Captured, Occupancy, HasOutdated, Bound;
  }
}
