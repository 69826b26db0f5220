/** What every replay keeps on a page: the dirty hull, the shift flag, finiteness, and rollback after a failure. */
module PageProperties {
  import opened Numbers
  import opened Floats
  import opened ChunkKeys
  import opened EditCommands
  import opened SampleEdits
  import opened PageEdits

  // ---- The dirty hull and the retained-shift flag ----

  ghost predicate Sees(key: ChunkKey, commands: seq<EditCommand>) {
    exists c :: c in commands && MayIntersectPage(key, c.bounds)
  }

  predicate Covered(b: Box3, hull: Option<Box3>) {
    hull.Some? && Inside(b, hull.value)
  }

  /** Exactly which bookkeeping a successful replay leaves behind, for every command list. */
  lemma {:induction false} ReplayBookkeeping(ar: Arithmetic, st: PageState, commands: seq<EditCommand>)
    requires Replay(ar, st, commands).status == Ok
    ensures
      var end := Replay(ar, st, commands).state;
      && end.key == st.key && end.protection == st.protection
      && (end.hull.Some? <==> st.hull.Some? || Sees(st.key, commands))
      && (end.shiftValid <==> st.shiftValid && !(st.key.lod > 0 && Sees(st.key, commands)))
      && (st.hull.Some? ==> Covered(st.hull.value, end.hull))
      && (forall c :: c in commands && MayIntersectPage(st.key, c.bounds) ==> Covered(c.bounds, end.hull))
    decreases |commands|
  {
    if |commands| > 0 {
      var next := ApplyCommand(ar, st, commands[0]).state;
      ReplayBookkeeping(ar, next, commands[1..]);
      assert Sees(st.key, commands) <==> MayIntersectPage(st.key, commands[0].bounds) || Sees(st.key, commands[1..]) by {
        if Sees(st.key, commands[1..]) {
          var c :| c in commands[1..] && MayIntersectPage(st.key, c.bounds);
          assert c in commands;
        }
      }
    }
  }

  /** The hull is no larger than needed: any box holding every seen command's bounds holds the hull. */
  lemma {:induction false} HullIsLeast(ar: Arithmetic, st: PageState, commands: seq<EditCommand>, box: Box3)
    requires Replay(ar, st, commands).status == Ok
    requires st.hull.Some? ==> Inside(st.hull.value, box)
    requires forall c :: c in commands && MayIntersectPage(st.key, c.bounds) ==> Inside(c.bounds, box)
    ensures var h := Replay(ar, st, commands).state.hull; h.Some? ==> Inside(h.value, box)
    decreases |commands|
  {
    if |commands| > 0 {
      HullIsLeast(ar, ApplyCommand(ar, st, commands[0]).state, commands[1..], box);
    }
  }

  lemma UnreachedByOneCommand(ar: Arithmetic, st: PageState, c: EditCommand)
    requires !MayIntersectPage(st.key, c.bounds)
    ensures
      var r := ApplyCommand(ar, st, c);
      && r.status != NonFiniteResult
      && r.state == st.(revision := r.state.revision, nextSequence := r.state.nextSequence)
  {}

  /** A page no command may reach keeps its samples, hull, counters and flags through any replay. */
  lemma {:induction false} UnreachedPageIsUntouched(ar: Arithmetic, st: PageState, commands: seq<EditCommand>)
    requires forall c :: c in commands ==> !MayIntersectPage(st.key, c.bounds)
    ensures
      var end := Replay(ar, st, commands).state;
      end == st.(revision := end.revision, nextSequence := end.nextSequence)
    decreases |commands|
  {
    if |commands| > 0 {
      assert commands[0] in commands;
      UnreachedByOneCommand(ar, st, commands[0]);
      UnreachedPageIsUntouched(ar, ApplyCommand(ar, st, commands[0]).state, commands[1..]);
    }
  }

  // ---- Finite samples ----

  /** What an accepted command leaves at a covered sample is finite, whatever stood there. */
  lemma AcceptedCommandKeepsFinite(ar: Arithmetic, st: PageState, c: EditCommand, i: nat)
    requires i < |st.samples| && ApplyCommand(ar, st, c).status == Ok
    ensures
      var after := ApplyCommand(ar, st, c).state;
      && |after.samples| == |st.samples|
      && (after.samples[i] == st.samples[i] || FiniteSample(after.samples[i]))
  {}

  /** An accepted replay turns no finite sample, and no finite density, into a non-finite one. */
  lemma {:induction false} ReplayKeepsFinite(ar: Arithmetic, st: PageState, commands: seq<EditCommand>, i: nat)
    requires i < |st.samples| && Replay(ar, st, commands).status == Ok
    ensures
      var end := Replay(ar, st, commands).state;
      && |end.samples| == |st.samples|
      && (end.samples[i] == st.samples[i] || FiniteSample(end.samples[i]))
    decreases |commands|
  {
    if |commands| > 0 {
      AcceptedCommandKeepsFinite(ar, st, commands[0], i);
      ReplayKeepsFinite(ar, ApplyCommand(ar, st, commands[0]).state, commands[1..], i);
    }
  }

  // ---- Failure and rollback ----

  function FailingSample(ar: Arithmetic, st: PageState, c: EditCommand): nat {
    PageEdit(ar, c, st.key, st.protection).FirstFailure(st.samples, 0)
  }

  /** A refused command: everything but the failing sample itself reads as before. */
  lemma RefusedCommandRestores(ar: Arithmetic, st: PageState, c: EditCommand)
    requires ApplyCommand(ar, st, c).status != Ok
    ensures
      var after, k := ApplyCommand(ar, st, c).state, FailingSample(ar, st, c);
      && |after.samples| == |st.samples|
      && after == st.(samples := after.samples)
      && (forall i :: 0 <= i < |st.samples| && i != k ==> SameSample(after.samples[i], st.samples[i]))
      && (ApplyCommand(ar, st, c).status != NonFiniteResult ==> after == st)
  {
    var edit := PageEdit(ar, c, st.key, st.protection);
    if Gate(st.revision, st.nextSequence, c) == Ok {
      UnnotedIsUnchanged(edit, st.samples, FailingSample(ar, st, c));
    }
    hide PageEdit.At, PageEdit.RolledBack, PageEdit.AllApplied, PageEdit.FirstFailure, Gate, SameSample, MayIntersectPage;
  }

  /** After the undo list is put back, every other sample reads as before: what was not noted had not changed. */
  lemma UnnotedIsUnchanged(edit: PageEdit, samples: seq<ScalarSample>, k: nat)
    requires forall i :: 0 <= i < k && i < |samples| ==> edit.At(i, samples[i]).ok
    ensures forall i :: 0 <= i < |samples| && i != k ==> SameSample(edit.RolledBack(samples, k)[i], samples[i])
  {
    forall i | 0 <= i < |samples| && i != k ensures SameSample(edit.RolledBack(samples, k)[i], samples[i]) {
      if i < k && !edit.At(i, samples[i]).changed { UnchangedReadsAlike(edit, i, samples[i]); }
      SamplesReadAlike(samples[i]);
      hide PageEdit.At, SameSample;
    }
  }

  lemma SamplesReadAlike(s: ScalarSample)
    ensures SameSample(s, s)
  {}

  lemma UnchangedReadsAlike(edit: PageEdit, i: nat, s: ScalarSample)
    requires edit.At(i, s).ok && !edit.At(i, s).changed
    ensures SameSample(edit.At(i, s).sample, s)
  {
    hide Written, Contains, Protects, PointAt;
  }

  ghost predicate ReadsAs(after: PageState, before: PageState) {
    && |after.samples| == |before.samples|
    && forall i :: 0 <= i < |before.samples| ==> SameSample(after.samples[i], before.samples[i])
  }

  /** Any page: after a refusal it reads as before exactly when the failing sample gave up before it was assigned, or was
      assigned the very numbers and material that stood there. */
  lemma RollbackIsCompleteExactlyBeforeWriting(ar: Arithmetic, st: PageState, c: EditCommand)
    requires ApplyCommand(ar, st, c).status == NonFiniteResult
    ensures
      var k := FailingSample(ar, st, c);
      && k < |st.samples|
      && var w := Written(ar, c, PointAt(st.key, k), st.samples[k]);
      && (ReadsAs(ApplyCommand(ar, st, c).state, st) <==> w.None? || SameSample(w.value, st.samples[k]))
  {
    RefusedCommandRestores(ar, st, c);
  }

  /** Where the density is finite, only a signed-distance brush or water that is not finite can leave a mark. */
  lemma OnlySdfBrushesLeaveAMark(ar: Arithmetic, c: EditCommand, p: GridPoint, s: ScalarSample)
    requires ValidCommand(c) && IsFinite(s.density)
    requires var o := ApplyToSample(ar, c, p, s); !o.ok && !SameSample(o.sample, s)
    ensures SdfOperation(c.operation) || !IsFinite(s.water)
  {}

  // ---- Concrete pages on which the promises fail ----

  const AIR: ScalarSample := ScalarSample(0xC000_0000, 0, false, 0x3F80_0000)

  /** A fresh page whose samples are all the same piece of air. */
  predicate UniformPage(st: PageState, key: ChunkKey) {
    && st.key == key && st.revision == 0 && st.nextSequence == 0 && st.protection == Open
    && |st.samples| == SAMPLE_COUNT && forall i :: 0 <= i < SAMPLE_COUNT ==> st.samples[i] == AIR
  }

  /** A carve at (19,0,0) of radius one: its integer bounds start at x = 18, its reach ends at x = 17. */
  const TANGENT_CARVE: EditCommand :=
    EditCommand(1, 0, 1, SDF_CARVE, SPHERE, 0, ONE, 0, 0,
                Box3(GridPoint(18, -1, -1), GridPoint(20, 1, 1)), Sphere(19 * 65536, 0, 0, 65536), NO_BOX)

  /** Arithmetic whose brush depth is the constant -1; without smoothing nothing is blended. */
  const CONSTANT_ARITHMETIC: Arithmetic :=
    Arithmetic((a, b) => a, (a, b) => a, (a, b) => a, (a, b) => a, (p, s, v) => Some(0xBF80_0000), (p, b) => None, u => u)

  lemma TangentCarveIsValid()
    ensures ValidCommand(TANGENT_CARVE)
  {
    assert FloorQ16(18 * 65536) == 18 && CeilQ16(20 * 65536) == 20;
    assert FloorQ16(-65536) == -1 && CeilQ16(65536) == 1;
  }

  lemma TangentCarveMissesOnlyTheLeftPage(left: ChunkKey, right: ChunkKey)
    requires left == ChunkKey(0, 0, 0, 0) && right == ChunkKey(1, 0, 0, 0)
    ensures !MayIntersectPage(left, TANGENT_CARVE.bounds)
    ensures MayIntersectPage(right, TANGENT_CARVE.bounds)
  {
    FinestPage(left);
    FinestPage(right);
  }

  lemma PoleIsCovered()
    ensures Contains(TANGENT_CARVE, GridPoint(17, 0, 0)) && Tangent(TANGENT_CARVE, GridPoint(17, 0, 0))
  {}

  lemma ConstantCarveNeverFails(p: GridPoint)
    ensures
      var r := ApplyToSample(CONSTANT_ARITHMETIC, TANGENT_CARVE, p, AIR);
      r.ok && (Contains(TANGENT_CARVE, p) ==> r.sample == AIR.(density := 0xBF80_0000))
  {}

  lemma AcceptedWhenNoSampleFails(ar: Arithmetic, st: PageState, c: EditCommand)
    requires Gate(st.revision, st.nextSequence, c) == Ok
    requires forall i :: 0 <= i < |st.samples| ==> PageEdit(ar, c, st.key, st.protection).At(i, st.samples[i]).ok
    ensures ApplyCommand(ar, st, c).status == Ok
  {}

  lemma TangentCarveAt(key: ChunkKey, i: nat)
    ensures PageEdit(CONSTANT_ARITHMETIC, TANGENT_CARVE, key, Open).At(i, AIR).ok
  {
    ConstantCarveNeverFails(PointAt(key, i));
  }

  lemma TangentCarveIsAccepted(st: PageState)
    requires UniformPage(st, st.key)
    ensures ApplyCommand(CONSTANT_ARITHMETIC, st, TANGENT_CARVE).status == Ok
  {
    assert Gate(st.revision, st.nextSequence, TANGENT_CARVE) == Ok by { TangentCarveIsValid(); }
    forall i | 0 <= i < |st.samples|
      ensures PageEdit(CONSTANT_ARITHMETIC, TANGENT_CARVE, st.key, st.protection).At(i, st.samples[i]).ok
    {
      TangentCarveAt(st.key, i);
    }
    AcceptedWhenNoSampleFails(CONSTANT_ARITHMETIC, st, TANGENT_CARVE);
  }

  lemma TangentCarveMovesThePole()
    ensures PointStep(CONSTANT_ARITHMETIC, Open, TANGENT_CARVE, GridPoint(17, 0, 0), AIR) != AIR
  {
    PoleIsCovered();
    ConstantCarveNeverFails(GridPoint(17, 0, 0));
  }

  lemma FinestSample(key: ChunkKey, x: int, y: int, z: int) returns (i: nat)
    requires key.lod == 0 && LatticeCoordinate(x) && LatticeCoordinate(y) && LatticeCoordinate(z)
    ensures i < SAMPLE_COUNT
    ensures PointAt(key, i) == GridPoint(16 * key.x + x, 16 * key.y + y, 16 * key.z + z)
  {
    i := SampleIndex(x, y, z);
    assert 0 <= i < SAMPLE_COUNT && PointAt(key, i) == SamplePoint(key, x, y, z) by { IndexOfCoordinates(key, x, y, z); }
    FinestLattice(key, x, y, z);
  }

  /** Both pages accept the command and agreed at the shared sample before it, but not after. */
  predicate Split(ar: Arithmetic, a: PageState, i: nat, b: PageState, j: nat, c: EditCommand) {
    && i < |a.samples| && j < |b.samples|
    && PointAt(a.key, i) == PointAt(b.key, j) && a.samples[i] == b.samples[j] && a.protection == b.protection
    && ApplyCommand(ar, a, c).status == Ok && ApplyCommand(ar, b, c).status == Ok
    && ApplyCommand(ar, a, c).state.samples[i] != ApplyCommand(ar, b, c).state.samples[j]
  }

  lemma OneSidedCommandSplits(ar: Arithmetic, a: PageState, i: nat, b: PageState, j: nat, c: EditCommand)
    requires WellFormed(a) && WellFormed(b) && i < SAMPLE_COUNT && j < SAMPLE_COUNT
    requires PointAt(a.key, i) == PointAt(b.key, j) && a.samples[i] == b.samples[j] && a.protection == b.protection
    requires ApplyCommand(ar, a, c).status == Ok && ApplyCommand(ar, b, c).status == Ok
    requires !MayIntersectPage(a.key, c.bounds) && MayIntersectPage(b.key, c.bounds)
    requires PointStep(ar, a.protection, c, PointAt(a.key, i), a.samples[i]) != a.samples[i]
    ensures Split(ar, a, i, b, j, c)
  {
    AgreementAfterOneCommand(ar, a, i, b, j, c);
  }

  /** Neighbouring pages that agree on a shared sample can be split by a command exactly tangent there. */
  lemma TangentCommandSplitsASharedSample(a: PageState, i: nat, b: PageState, j: nat, ar: Arithmetic, c: EditCommand)
    requires UniformPage(a, a.key) && a.key == ChunkKey(0, 0, 0, 0)
    requires UniformPage(b, b.key) && b.key == ChunkKey(1, 0, 0, 0)
    requires i < SAMPLE_COUNT && j < SAMPLE_COUNT
    requires PointAt(a.key, i) == GridPoint(17, 0, 0) == PointAt(b.key, j)
    requires ar == CONSTANT_ARITHMETIC && c == TANGENT_CARVE
    ensures Split(ar, a, i, b, j, c)
  {
    assert ApplyCommand(ar, a, c).status == Ok by { TangentCarveIsAccepted(a); }
    assert ApplyCommand(ar, b, c).status == Ok by { TangentCarveIsAccepted(b); }
    assert !MayIntersectPage(a.key, c.bounds) && MayIntersectPage(b.key, c.bounds) by {
      TangentCarveMissesOnlyTheLeftPage(a.key, b.key);
    }
    assert PointStep(ar, Open, c, GridPoint(17, 0, 0), AIR) != AIR by { TangentCarveMovesThePole(); }
    OneSidedCommandSplits(ar, a, i, b, j, c);
  }

  /** The two pages of that example do share the tangent point. */
  lemma PagesShareThePole() returns (i: nat, j: nat)
    ensures i < SAMPLE_COUNT && j < SAMPLE_COUNT
    ensures PointAt(ChunkKey(0, 0, 0, 0), i) == GridPoint(17, 0, 0) == PointAt(ChunkKey(1, 0, 0, 0), j)
  {
    hide PointAt;
    i := FinestSample(ChunkKey(0, 0, 0, 0), 17, 0, 0);
    j := FinestSample(ChunkKey(1, 0, 0, 0), 1, 0, 0);
  }
}
