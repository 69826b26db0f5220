/** When the shadow queue says no: exactly what has to be in the way of a capture or a reservation. */
module ShadowQueueAnswers {
  import opened ShadowJobs
  import opened ShadowQueues
  import opened ShadowQueueInvariants

  // ---- Captures ----

  /** Some queued request, with no sibling in flight, is an older version of the job's key. */
  ghost predicate HasOutdated(st: QueueState, job: Job, backgroundOnly: bool) {
    exists q :: q in st.queued && SupersedesQueued(job, q.capture.job) && !VersionIn(st.inFlight, q.capture.job)
                && (backgroundOnly ==> !q.capture.incremental)
  }

  lemma ReplaceableIsOutdated(st: QueueState, job: Job)
    ensures FirstIndex(st.queued, Replaceable(st.inFlight, job)) < |st.queued| <==> HasOutdated(st, job, false)
    ensures FirstIndex(st.queued, ReplaceableBackground(st.inFlight, job)) < |st.queued| <==> HasOutdated(st, job, true)
  {
    hide VersionIn, SupersedesQueued;
    var any, background := Replaceable(st.inFlight, job), ReplaceableBackground(st.inFlight, job);
    if q :| q in st.queued && any(q) {
      var k :| 0 <= k < |st.queued| && st.queued[k] == q;
      assert any(st.queued[k]);
    }
    if q :| q in st.queued && background(q) {
      var k :| 0 <= k < |st.queued| && st.queued[k] == q;
      assert background(st.queued[k]);
    }
    var i, j := FirstIndex(st.queued, any), FirstIndex(st.queued, background);
    assert i < |st.queued| ==> any(st.queued[i]) && st.queued[i] in st.queued;
    assert j < |st.queued| ==> background(st.queued[j]) && st.queued[j] in st.queued;
  }

  /** A capture is admitted exactly when it has content, fits the stage of a running queue, and either finds room or takes
      the place of an older version of its own key; saturation is counted and changes nothing else. */
  lemma CaptureIsRefusedOnlyWhenSaturated(st: QueueState, c: Capture)
    ensures Captured(st, c).ok
       <==> Substantial(c) && st.enabled && c.stage == st.stage
            && (if ClassIsFull(st, c) then HasOutdated(st, c.job, true)
                else Occupied(st) < st.capacity || HasOutdated(st, c.job, false))
    ensures Substantial(c) && st.enabled && c.stage == st.stage && !Captured(st, c).ok ==>
      Captured(st, c).state == st.(metrics := st.metrics.(capacityRejections := st.metrics.capacityRejections + 1))
  {
    ReplaceableIsOutdated(st, c.job);
    hide HasOutdated, FirstIndex, ClassIsFull, Occupied, Substantial, Admitted, Retained;
  }

  /** Work the queue has accepted is known to it: an admitted capture's version and a granted reservation's. */
  lemma AcceptedWorkIsKnown(st: QueueState, c: Capture, job: Job)
    ensures Captured(st, c).ok ==> HasVersion(Captured(st, c).state, c.job)
    ensures Reserve(st, job).id != 0 ==> HasVersion(Reserve(st, job).state, job)
  {
    if Captured(st, c).ok {
      AdmittedIsKnown(st, c);
    }
    if Reserve(st, job).id != 0 {
      hide MakeClassRoom, MakeRoom, OverClassLimit, VersionIn;
      var rs := Reserve(st, job).state.reservations;
      assert rs[|rs| - 1] in rs && SameVersion(rs[|rs| - 1].job, job);
    }
  }

  lemma AdmittedIsKnown(st: QueueState, c: Capture)
    requires Captured(st, c).ok
    ensures VersionIn(Captured(st, c).state.queued, c.job)
  {
    hide ClassIsFull, Occupied, Substantial, FirstIndex, Replaceable, ReplaceableBackground;
    var next := Captured(st, c).state.queued;
    assert exists k :: 0 <= k < |next| && next[k].capture.job == c.job by {
      var i := if ClassIsFull(st, c) then FirstIndex(st.queued, ReplaceableBackground(st.inFlight, c.job))
               else if Occupied(st) >= st.capacity then FirstIndex(st.queued, Replaceable(st.inFlight, c.job))
               else |st.queued|;
      assert next[i].capture.job == c.job;
    }
    var k :| 0 <= k < |next| && next[k].capture.job == c.job;
    assert next[k] in next;
  }

  // ---- Reservations ----

  /** No queued request may still be dropped for the job: the cheapest one is in flight elsewhere or not superseded. */
  predicate Stuck(st: QueueState, job: Job) {
    |st.queued| == 0 ||
    var victim := st.queued[CheapestIndex(st.inFlight, st.queued, |st.queued|)].capture.job;
    VersionIn(st.inFlight, victim) || !MayDrop(Lossless(st), job, victim)
  }

  lemma VersionLeaves(st: QueueState, i: nat)
    requires i < |st.queued|
    ensures |WithoutVersion(st, st.queued[i].capture.job).queued| < |st.queued|
  {
    assert OfVersion(st.queued[i].capture.job)(st.queued[i]);
  }

  /** Making room ends with enough dropped or nothing left that may be. */
  lemma {:induction false} DroppingEnds(st: QueueState, job: Job, required: int, released: nat)
    ensures
      var next := DropForRoom(st, job, required, released);
      released + (|st.queued| - |next.queued|) >= required || Stuck(next, job)
    decreases |st.queued|
  {
    hide WithoutVersion, CheapestIndex, MayDrop, Lossless, VersionIn;
    if released < required && !Stuck(st, job) {
      var i := CheapestIndex(st.inFlight, st.queued, |st.queued|);
      VersionLeaves(st, i);
      var next := WithoutVersion(st, st.queued[i].capture.job);
      DroppingEnds(next, job, required, released + (|st.queued| - |next.queued|));
    }
  }

  lemma {:induction false} BackgroundDroppingEnds(st: QueueState, job: Job, required: int, released: nat)
    ensures
      var next := DropBackground(st, job, required, released);
      || released + (|st.queued| - |next.queued|) >= required
      || (forall q :: q in next.queued ==> !BackgroundVictim(next.inFlight, job)(q))
    decreases |st.queued|
  {
    hide WithoutVersion, VersionIn, VersionSupersedes;
    var i := FirstIndex(st.queued, BackgroundVictim(st.inFlight, job));
    if i == |st.queued| {
      assert forall q :: q in st.queued ==> !BackgroundVictim(st.inFlight, job)(q);
    } else if released < required {
      VersionLeaves(st, i);
      var next := WithoutVersion(st, st.queued[i].capture.job);
      BackgroundDroppingEnds(next, job, required, released + (|st.queued| - |next.queued|));
    }
  }

  lemma OccupiedAfterShrinking(st: QueueState, next: QueueState)
    requires Shrinks(st, next)
    ensures Occupied(next) == Occupied(st) - (|st.queued| - |next.queued|) && next.capacity == st.capacity
  {
    hide DistinctIds;
  }

  lemma RoomPassEnds(st: QueueState, job: Job, required: int)
    ensures
      var dropped := DropForRoom(st, job, required, 0);
      dropped.capacity == st.capacity && (Occupied(dropped) <= Occupied(st) - required || Stuck(dropped, job))
  {
    DroppingEnds(st, job, required, 0);
    DropForRoomShrinks(st, job, required, 0);
    OccupiedAfterShrinking(st, DropForRoom(st, job, required, 0));
    hide Stuck, Occupied, Shrinks, GaveWay, DropForRoom;
  }

  lemma RoomOrStuck(st: QueueState, job: Job)
    requires Inv(st)
    ensures
      var next := MakeRoom(st, job);
      Occupied(next) + SlotsFor(st.capacity) <= st.capacity || Stuck(next, job)
  {
    hide Inv, DropForRoom, Stuck, SlotsFor, Occupied, Mirrored;
    var free := st.capacity - Occupied(st);
    FitsItsCapacity(st);
    if SlotsFor(st.capacity) > free {
      RoomPassEnds(st, job, SlotsFor(st.capacity) - free);
      MirroringIsInvisible(DropForRoom(st, job, SlotsFor(st.capacity) - free, 0), job);
    }
  }

  lemma MirroringIsInvisible(st: QueueState, job: Job)
    ensures Stuck(Mirrored(st), job) == Stuck(st, job) && Occupied(Mirrored(st)) == Occupied(st)
  {
    hide CheapestIndex, MayDrop, VersionIn;
  }

  /** A running queue refuses a reservation only for its class limit, or when the free places do not suffice and no queued
      request may be dropped any more; with room from the start it grants at once and drops nothing. */
  lemma ReservationIsRefusedOnlyWhenStuck(st: QueueState, job: Job)
    requires Inv(st) && st.enabled
    ensures
      var g := Reserve(st, job);
      g.id == 0 ==> OverClassLimit(g.state, job)
                    || (Occupied(g.state) + SlotsFor(st.capacity) > st.capacity && Stuck(g.state, job))
    ensures !OverClassLimit(st, job) && Occupied(st) + SlotsFor(st.capacity) <= st.capacity ==>
      Reserve(st, job).id != 0 && Reserve(st, job).state.queued == st.queued
  {
    TryingKeepsInv(st);
    var tried := Tried(st);
    MadeClassRoom(tried, job);
    var classed := MakeClassRoom(tried, job);
    MadeRoom(classed, job);
    RoomOrStuck(classed, job);
    CountersAreInvisible(st, tried, job);
    CountersAreInvisible(classed, Refused(classed).state, job);
    CountersAreInvisible(MakeRoom(classed, job), Refused(MakeRoom(classed, job)).state, job);
    assert st.nextReservationId > 0;
    hide Inv, MakeRoom, OverClassLimit, Stuck, Outdated, GaveWay, SlotsFor, DropBackground, Occupancy, ClassLimit;
  }

  /** Counters decide nothing. */
  lemma CountersAreInvisible(a: QueueState, b: QueueState, job: Job)
    requires b == a.(metrics := b.metrics) && b.metrics.reservedSlots == a.metrics.reservedSlots
    ensures OverClassLimit(a, job) == OverClassLimit(b, job) && Stuck(a, job) == Stuck(b, job) && Occupied(a) == Occupied(b)
  {
    hide CheapestIndex, MayDrop, VersionIn, RequestCount, SlotCount, ClassLimit;
  }

  /** How many queued requests the job may drop when nothing stops it early. */
  function Droppable(st: QueueState, job: Job): int {
    |st.queued| - |DropForRoom(st, job, |st.queued| + 1, 0).queued|
  }

  /** A pass asked for more goes at least as far: it meets a smaller demand exactly when the pass asked for that does. */
  lemma {:induction false} LongerPassMeetsTheSame(st: QueueState, job: Job, required: int, more: int, released: nat)
    requires required <= more
    ensures released + (|st.queued| - |DropForRoom(st, job, required, released).queued|) >= required
       <==> released + (|st.queued| - |DropForRoom(st, job, more, released).queued|) >= required
    decreases |st.queued|
  {
    hide WithoutVersion, CheapestIndex, MayDrop, Lossless, VersionIn, Shrinks, GaveWay;
    DroppingNeverAdds(st, job, more, released);
    if released < required && !Stuck(st, job) {
      var i := CheapestIndex(st.inFlight, st.queued, |st.queued|);
      VersionLeaves(st, i);
      var next := WithoutVersion(st, st.queued[i].capture.job);
      LongerPassMeetsTheSame(next, job, required, more, released + (|st.queued| - |next.queued|));
    }
  }

  lemma DroppingNeverAdds(st: QueueState, job: Job, required: int, released: nat)
    ensures |DropForRoom(st, job, required, released).queued| <= |st.queued|
    ensures DropForRoom(st, job, required, released).capacity == st.capacity
    ensures Occupied(DropForRoom(st, job, required, released))
         == Occupied(st) - (|st.queued| - |DropForRoom(st, job, required, released).queued|)
  {
    DropForRoomShrinks(st, job, required, released);
    OccupiedAfterShrinking(st, DropForRoom(st, job, required, released));
    hide DropForRoom, GaveWay, DistinctIds, Occupied;
  }

  /** The second pass leaves room exactly when everything the job may drop would. */
  lemma RoomIsMadeExactly(st: QueueState, job: Job)
    requires Inv(st)
    ensures SlotsFor(st.capacity) <= MakeRoom(st, job).capacity - Occupied(MakeRoom(st, job))
       <==> Occupied(st) - Droppable(st, job) + SlotsFor(st.capacity) <= st.capacity
    ensures MakeRoom(st, job).capacity == st.capacity && MakeRoom(st, job).nextReservationId == st.nextReservationId
  {
    hide Inv, DropForRoom, SlotsFor, Occupied, Mirrored, Stuck;
    FitsItsCapacity(st);
    var required := SlotsFor(st.capacity) - (st.capacity - Occupied(st));
    DroppingNeverAdds(st, job, |st.queued| + 1, 0);
    DroppingNeverAdds(st, job, required, 0);
    MadeRoomKeeps(st, job);
    if required > 0 {
      MirroringIsInvisible(DropForRoom(st, job, required, 0), job);
      if required <= |st.queued| + 1 {
        LongerPassMeetsTheSame(st, job, required, |st.queued| + 1, 0);
      }
    }
  }

  lemma MadeRoomKeeps(st: QueueState, job: Job)
    requires Inv(st)
    ensures MakeRoom(st, job).capacity == st.capacity && MakeRoom(st, job).nextReservationId == st.nextReservationId
  {
    MadeRoom(st, job);
    hide Inv, MakeRoom, GaveWay;
  }

  /** A running queue grants a reservation exactly when, its class having made what room it makes, the job is within its
      class limit and everything the job may drop leaves room for its slots. Within its limit from the start, its class
      makes no room. */
  lemma ReservationIsGrantedExactly(st: QueueState, job: Job)
    requires Inv(st) && st.enabled
    ensures
      var classed := MakeClassRoom(Tried(st), job);
      && (Reserve(st, job).id != 0
          <==> !OverClassLimit(classed, job)
               && Occupied(classed) - Droppable(classed, job) + SlotsFor(st.capacity) <= st.capacity)
      && (!OverClassLimit(st, job) ==> classed == Tried(st))
  {
    assert st.nextReservationId > 0;
    hide Inv, OverClassLimit, Occupied, Droppable, SlotsFor, DropBackground, MakeRoom, Stuck, Outdated, Occupancy, ClassLimit;
    TryingKeepsInv(st);
    CountersAreInvisible(st, Tried(st), job);
    MadeClassRoom(Tried(st), job);
    var classed := MakeClassRoom(Tried(st), job);
    RoomIsMadeExactly(classed, job);
  }

  // ---- What a refusal has already cost ----

  /** A pass that starts by dropping the version at i has lost the request there, however it goes on. */
  lemma DroppedForGood(st: QueueState, i: nat, end: QueueState)
    requires i < |st.queued| && Shrinks(WithoutVersion(st, st.queued[i].capture.job), end)
    ensures st.queued[i] in st.queued && st.queued[i] !in end.queued
  {
    var next := WithoutVersion(st, st.queued[i].capture.job);
    assert OfVersion(st.queued[i].capture.job)(st.queued[i]);
    hide DistinctIds;
    assert st.queued[i] !in next.queued;
  }

  /** The first pass, asked for anything at all, drops nothing exactly when it finds no victim. */
  lemma BackgroundPassIsIdle(st: QueueState, job: Job, required: int)
    requires required > 0
    ensures (forall r :: r in st.queued ==> r in DropBackground(st, job, required, 0).queued)
       <==> (forall q :: q in st.queued ==> !BackgroundVictim(st.inFlight, job)(q))
  {
    var victim := BackgroundVictim(st.inFlight, job);
    hide BackgroundVictim, WithoutVersion, Shrinks;
    var i := FirstIndex(st.queued, victim);
    if i < |st.queued| {
      VersionLeaves(st, i);
      var next := WithoutVersion(st, st.queued[i].capture.job);
      DropBackgroundShrinks(next, job, required, |st.queued| - |next.queued|);
      DroppedForGood(st, i, DropBackground(next, job, required, |st.queued| - |next.queued|));
    }
  }

  /** The second pass likewise: nothing is dropped exactly when it is stuck at once. */
  lemma RoomPassIsIdle(st: QueueState, job: Job, required: int)
    requires required > 0
    ensures (forall r :: r in st.queued ==> r in DropForRoom(st, job, required, 0).queued) <==> Stuck(st, job)
  {
    hide CheapestIndex, MayDrop, Lossless, VersionIn, WithoutVersion, Shrinks;
    if !Stuck(st, job) {
      var i := CheapestIndex(st.inFlight, st.queued, |st.queued|);
      VersionLeaves(st, i);
      var next := WithoutVersion(st, st.queued[i].capture.job);
      DropForRoomShrinks(next, job, required, |st.queued| - |next.queued|);
      DroppedForGood(st, i, DropForRoom(next, job, required, |st.queued| - |next.queued|));
    }
  }

  /** Over the class limit a call drops nothing exactly when the first pass has no victim. */
  lemma OverLimitDropsNothingExactly(tried: QueueState, job: Job)
    requires Inv(tried) && OverClassLimit(tried, job)
    ensures
      var classed := MakeClassRoom(tried, job);
      (forall r :: r in tried.queued ==> r in classed.queued)
      <==> (forall q :: q in tried.queued ==> !BackgroundVictim(tried.inFlight, job)(q))
  {
    var required := Occupancy(tried, Coverage(job)) + SlotsFor(tried.capacity) - ClassLimit(tried.capacity, Coverage(job));
    BackgroundPassIsIdle(tried, job, required);
    hide DropBackground, Inv, BackgroundVictim, ClassLimit, Occupancy;
  }

  /** No victim was found, so the limit still stands and nothing else is tried. */
  lemma IdleClassPassRefuses(tried: QueueState, job: Job)
    requires Inv(tried) && OverClassLimit(tried, job)
    requires forall q :: q in tried.queued ==> !BackgroundVictim(tried.inFlight, job)(q)
    ensures MakeClassRoom(tried, job).queued == tried.queued && OverClassLimit(MakeClassRoom(tried, job), job)
  {
    var required := Occupancy(tried, Coverage(job)) + SlotsFor(tried.capacity) - ClassLimit(tried.capacity, Coverage(job));
    assert FirstIndex(tried.queued, BackgroundVictim(tried.inFlight, job)) == |tried.queued|;
    assert DropBackground(tried, job, required, 0) == tried;
    CountersAreInvisible(tried, Mirrored(tried), job);
    hide OverClassLimit, Inv, BackgroundVictim, ClassLimit, Occupancy;
  }

  /** Within the limit and short of slots, the second pass drops nothing exactly when it is stuck. */
  lemma WithinLimitDropsNothingExactly(tried: QueueState, job: Job)
    requires Inv(tried) && SlotsFor(tried.capacity) > tried.capacity - Occupied(tried)
    ensures (forall r :: r in tried.queued ==> r in MakeRoom(tried, job).queued) <==> Stuck(tried, job)
  {
    assert Occupied(tried) <= tried.capacity;
    RoomPassIsIdle(tried, job, SlotsFor(tried.capacity) - (tried.capacity - Occupied(tried)));
    hide Stuck, DropForRoom, Inv, Occupied, SlotsFor;
  }

  /** Told before the call: a refused reservation has dropped no request exactly when its job was over its class limit with no
      outdated background version to drop, or within it and stuck from the start. */
  lemma RefusalDropsNothingExactly(st: QueueState, job: Job)
    requires Inv(st) && st.enabled && Reserve(st, job).id == 0
    ensures (forall r :: r in st.queued ==> r in Reserve(st, job).state.queued)
       <==> if OverClassLimit(st, job) then (forall q :: q in st.queued ==> !BackgroundVictim(st.inFlight, job)(q))
            else Stuck(st, job)
  {
    var tried := Tried(st);
    TryingKeepsInv(st);
    CountersAreInvisible(st, tried, job);
    assert st.nextReservationId > 0;
    hide OverClassLimit, Inv, Stuck, MakeRoom, BackgroundVictim, SlotsFor, Occupied, Outdated, GaveWay;
    if OverClassLimit(tried, job) {
      OverLimitDropsNothingExactly(tried, job);
      MadeClassRoom(tried, job);
      if forall q :: q in tried.queued ==> !BackgroundVictim(tried.inFlight, job)(q) {
        IdleClassPassRefuses(tried, job);
      }
      hide MakeClassRoom;
      MadeRoom(MakeClassRoom(tried, job), job);
    } else if SlotsFor(tried.capacity) > tried.capacity - Occupied(tried) {
      WithinLimitDropsNothingExactly(tried, job);
    } else {
      EnoughRoomIsKept(tried, job);
    }
  }

  lemma EnoughRoomIsKept(st: QueueState, job: Job)
    requires SlotsFor(st.capacity) <= st.capacity - Occupied(st)
    ensures MakeRoom(st, job) == st
  {}
}
