/** What a command and a whole replay do to one page, as functions of the page. */
module PageEdits {
  import opened Numbers
  import opened ChunkKeys
  import opened EditCommands
  import opened SampleEdits

  datatype EditStatus =
    Ok | NotInitialized | InvalidPage | SourceRevisionMismatch
  | InvalidCommand | WorldRevisionMismatch | SequenceMismatch | NonFiniteResult

  /** One command aimed at one page. */
  datatype PageEdit = PageEdit(ar: Arithmetic, command: EditCommand, key: ChunkKey, protection: Protection) {

    function At(i: nat, s: ScalarSample): Outcome {
      var p := PointAt(key, i);
      if Protects(protection, p) then Outcome(s, false, true) else ApplyToSample(ar, command, p, s)
    }

    /** The first sample at or after `from` on which the command fails, or the sample count. */
    function FirstFailure(samples: seq<ScalarSample>, from: nat): (k: nat)
      requires from <= |samples|
      ensures from <= k <= |samples|
      ensures forall i :: from <= i < k ==> At(i, samples[i]).ok
      ensures k < |samples| ==> !At(k, samples[k]).ok
      decreases |samples| - from
    {
      if from == |samples| || !At(from, samples[from]).ok then from else FirstFailure(samples, from + 1)
    }

    function ChangedBefore(samples: seq<ScalarSample>, n: nat): (count: nat)
      requires n <= |samples|
      ensures count <= n
    {
      if n == 0 then 0
      else ChangedBefore(samples, n - 1) + (if At(n - 1, samples[n - 1]).changed then 1 else 0)
    }

    /** Every sample of the page after a run that failed nowhere. */
    function AllApplied(samples: seq<ScalarSample>): (r: seq<ScalarSample>)
      ensures |r| == |samples|
    {
      seq(|samples|, i requires 0 <= i < |samples| => At(i, samples[i]).sample)
    }

    /** Every sample after a run that failed at k: those noted as changed before k are put back, k itself is not. */
    function RolledBack(samples: seq<ScalarSample>, k: nat): (r: seq<ScalarSample>)
      ensures |r| == |samples|
    {
      seq(|samples|, i requires 0 <= i < |samples| =>
        if i > k || (i < k && At(i, samples[i]).changed) then samples[i] else At(i, samples[i]).sample)
    }

    function Values(samples: seq<ScalarSample>): (r: ValuesResult)
      ensures |r.samples| == |samples|
      ensures r.changed <= |samples|
    {
      if !MayIntersectPage(key, command.bounds) then ValuesResult(samples, 0, true)
      else
        var k := FirstFailure(samples, 0);
        if k == |samples| then ValuesResult(AllApplied(samples), ChangedBefore(samples, k), true)
        else ValuesResult(RolledBack(samples, k), 0, false)
    }
  }

  datatype ValuesResult = ValuesResult(samples: seq<ScalarSample>, changed: nat, ok: bool)

  datatype PageState = PageState(
    key: ChunkKey, samples: seq<ScalarSample>, revision: U64, nextSequence: U32, changedCount: U64,
    hull: Option<Box3>, shiftValid: bool, waterSummaryValid: bool, protection: Protection)

  function Hull(hull: Option<Box3>, b: Box3): Box3 {
    match hull
    case None => b
    case Some(h) =>
      Box3(GridPoint(Min(h.minimum.x, b.minimum.x), Min(h.minimum.y, b.minimum.y), Min(h.minimum.z, b.minimum.z)),
           GridPoint(Max(h.maximum.x, b.maximum.x), Max(h.maximum.y, b.maximum.y), Max(h.maximum.z, b.maximum.z)))
  }

  /** The revision and sequence gate: a new revision starts at sequence 0, the current one continues. */
  function Gate(revision: U64, nextSequence: U32, c: EditCommand): EditStatus {
    if !ValidCommand(c) then InvalidCommand
    else if c.worldRevision == revision + 1 then
      if c.sequence != 0 then SequenceMismatch else Ok
    else if c.worldRevision == revision then
      if c.sequence != nextSequence then SequenceMismatch else Ok
    else WorldRevisionMismatch
  }

  datatype Step = Step(state: PageState, status: EditStatus)

  /** The page and status once the pass over the samples has ended. */
  function Finish(st: PageState, c: EditCommand, values: ValuesResult): Step {
    if !values.ok then Step(st.(samples := values.samples), NonFiniteResult)
    else
      var hit := MayIntersectPage(st.key, c.bounds);
      Step(st.(samples := values.samples,
               revision := c.worldRevision,
               nextSequence := (c.sequence + 1) % U32_COUNT,
               changedCount := (st.changedCount + values.changed) % U64_COUNT,
               hull := if hit then Some(Hull(st.hull, c.bounds)) else st.hull,
               shiftValid := st.shiftValid && !(hit && st.key.lod > 0),
               waterSummaryValid := st.waterSummaryValid && values.changed == 0), Ok)
  }

  function ApplyCommand(ar: Arithmetic, st: PageState, c: EditCommand): Step {
    var gate := Gate(st.revision, st.nextSequence, c);
    if gate != Ok then Step(st, gate)
    else Finish(st, c, PageEdit(ar, c, st.key, st.protection).Values(st.samples))
  }

  datatype Replayed = Replayed(state: PageState, status: EditStatus)

  /** Commands in order, stopping at the first one that is not accepted. */
  function Replay(ar: Arithmetic, st: PageState, commands: seq<EditCommand>): Replayed
    decreases |commands|
  {
    if |commands| == 0 then Replayed(st, Ok)
    else
      var a := ApplyCommand(ar, st, commands[0]);
      if a.status != Ok then Replayed(a.state, a.status) else Replay(ar, a.state, commands[1..])
  }

  predicate WellFormed(st: PageState) {
    ValidKey(st.key) && |st.samples| == SAMPLE_COUNT
  }

  // ---- A replayed sample depends on its world point alone ----

  /** The command at one world point, with no page in sight. */
  function PointStep(ar: Arithmetic, protection: Protection, c: EditCommand, p: GridPoint, s: ScalarSample): ScalarSample {
    if Protects(protection, p) then s else ApplyToSample(ar, c, p, s).sample
  }

  function PointReplay(ar: Arithmetic, protection: Protection, commands: seq<EditCommand>, p: GridPoint, s: ScalarSample)
    : ScalarSample
    decreases |commands|
  {
    if |commands| == 0 then s
    else PointReplay(ar, protection, commands[1..], p, PointStep(ar, protection, commands[0], p, s))
  }

  /** One accepted command: a page that is not skipped steps the sample; a skipped page leaves it. */
  lemma AcceptedCommandAt(ar: Arithmetic, st: PageState, c: EditCommand, i: nat)
    requires WellFormed(st) && i < SAMPLE_COUNT && ApplyCommand(ar, st, c).status == Ok
    ensures WellFormed(ApplyCommand(ar, st, c).state)
    ensures ApplyCommand(ar, st, c).state.samples[i]
         == if MayIntersectPage(st.key, c.bounds)
            then PointStep(ar, st.protection, c, PointAt(st.key, i), st.samples[i]) else st.samples[i]
  {}

  lemma AcceptedCommandIsLocal(ar: Arithmetic, st: PageState, c: EditCommand, i: nat)
    requires WellFormed(st) && i < SAMPLE_COUNT && ApplyCommand(ar, st, c).status == Ok
    requires !Tangent(c, PointAt(st.key, i))
    ensures WellFormed(ApplyCommand(ar, st, c).state)
    ensures ApplyCommand(ar, st, c).state.samples[i]
         == PointStep(ar, st.protection, c, PointAt(st.key, i), st.samples[i])
  {
    AcceptedCommandAt(ar, st, c, i);
    if Contains(c, PointAt(st.key, i)) {
      SkippedCoverageIsAtTheRim(c, st.key, i);
    }
  }

  /** Replaying on any page gives each sample the value its world point alone determines. */
  lemma {:induction false} ReplayIsPointwise(ar: Arithmetic, st: PageState, commands: seq<EditCommand>, i: nat)
    requires WellFormed(st) && i < SAMPLE_COUNT && Replay(ar, st, commands).status == Ok
    requires forall c :: c in commands ==> !Tangent(c, PointAt(st.key, i))
    ensures WellFormed(Replay(ar, st, commands).state)
    ensures Replay(ar, st, commands).state.samples[i]
         == PointReplay(ar, st.protection, commands, PointAt(st.key, i), st.samples[i])
    decreases |commands|
  {
    if |commands| > 0 {
      AcceptedCommandIsLocal(ar, st, commands[0], i);
      ReplayIsPointwise(ar, ApplyCommand(ar, st, commands[0]).state, commands[1..], i);
    }
  }

  /** Two pages of any levels that agree at a shared grid point still agree there after the same replay. */
  lemma OverlapAgreement(ar: Arithmetic, a: PageState, i: nat, b: PageState, j: nat, commands: seq<EditCommand>)
    requires WellFormed(a) && WellFormed(b) && i < SAMPLE_COUNT && j < SAMPLE_COUNT
    requires PointAt(a.key, i) == PointAt(b.key, j) && a.samples[i] == b.samples[j] && a.protection == b.protection
    requires Replay(ar, a, commands).status == Ok && Replay(ar, b, commands).status == Ok
    requires forall c :: c in commands ==> !Tangent(c, PointAt(a.key, i))
    ensures WellFormed(Replay(ar, a, commands).state) && WellFormed(Replay(ar, b, commands).state)
    ensures Replay(ar, a, commands).state.samples[i] == Replay(ar, b, commands).state.samples[j]
  {
    ReplayIsPointwise(ar, a, commands, i);
    ReplayIsPointwise(ar, b, commands, j);
  }

  /** For one command, tangent or not: agreement survives exactly when both pages see it or it does nothing there. */
  lemma AgreementAfterOneCommand(ar: Arithmetic, a: PageState, i: nat, b: PageState, j: nat, c: EditCommand)
    requires WellFormed(a) && WellFormed(b) && i < SAMPLE_COUNT && j < SAMPLE_COUNT
    requires PointAt(a.key, i) == PointAt(b.key, j) && a.samples[i] == b.samples[j] && a.protection == b.protection
    requires ApplyCommand(ar, a, c).status == Ok && ApplyCommand(ar, b, c).status == Ok
    ensures ApplyCommand(ar, a, c).state.samples[i] == ApplyCommand(ar, b, c).state.samples[j]
       <==> (MayIntersectPage(a.key, c.bounds) <==> MayIntersectPage(b.key, c.bounds))
            || PointStep(ar, a.protection, c, PointAt(a.key, i), a.samples[i]) == a.samples[i]
  {
    AcceptedCommandAt(ar, a, c, i);
    AcceptedCommandAt(ar, b, c, j);
  }
}
