/** The page editor that owns one page's samples and rewrites them in place. */
module ChunkEditStates {
  import opened Numbers
  import opened Floats
  import opened ChunkKeys
  import opened EditCommands
  import opened SampleEdits
  import opened PageEdits

  const FLOAT32_DENSITY: U8 := 1
  const UINT16_MATERIAL: U8 := 1

  datatype PageMetadata = PageMetadata(
    key: ChunkKey, sampleMinimum: int, sampleMaximum: int, dimensionX: U16, dimensionY: U16, dimensionZ: U16,
    densityEncoding: U8, materialEncoding: U8, sampleCount: U32, cellSpacing: U64, sourceRevision: U64)

  datatype Page = Page(
    metadata: PageMetadata, samples: seq<ScalarSample>, waterSummaryValid: bool, shiftValid: bool)

  datatype Descriptor = Descriptor(sourceRevision: U64, protection: Protection)

  predicate ValidPage(page: Page) {
    var m := page.metadata;
    && ValidKey(m.key)
    && m.sampleMinimum == -1 && m.sampleMaximum == 17
    && m.dimensionX == SAMPLES_PER_AXIS && m.dimensionY == SAMPLES_PER_AXIS && m.dimensionZ == SAMPLES_PER_AXIS
    && m.densityEncoding == FLOAT32_DENSITY && m.materialEncoding == UINT16_MATERIAL
    && m.sampleCount == SAMPLE_COUNT
    && m.cellSpacing == CellSize(m.key.lod)
    && |page.samples| == SAMPLE_COUNT
  }

  ghost function InitialStatus(page: Page, expectedSource: U64, descriptor: Option<Descriptor>): EditStatus {
    if !ValidPage(page) || !FiniteDensities(page.samples) then InvalidPage
    else if page.metadata.sourceRevision != expectedSource then SourceRevisionMismatch
    else if descriptor.Some? && descriptor.value.sourceRevision != expectedSource then InvalidPage
    else Ok
  }

  function InitialState(page: Page, revision: U64, descriptor: Option<Descriptor>): PageState {
    PageState(page.metadata.key, page.samples, revision, 0, 0, None, page.shiftValid, page.waterSummaryValid,
              if descriptor.Some? then descriptor.value.protection else Open)
  }

  datatype ChangedSample = ChangedSample(index: nat, previous: ScalarSample)

  class ChunkEditState {
    const ar: Arithmetic
    var initialized: bool
    var key: ChunkKey
    var samples: array<ScalarSample>
    var revision: U64
    var nextSequence: U32
    var changedCount: U64
    var hull: Box3
    var hasHull: bool
    var shiftValid: bool
    var waterSummaryValid: bool
    var protection: Protection
    var lastStatus: EditStatus

    ghost predicate Valid()
      reads this
    {
      initialized ==> ValidKey(key) && samples.Length == SAMPLE_COUNT
    }

    ghost function State(): PageState
      reads this, samples
    {
      PageState(key, samples[..], revision, nextSequence, changedCount, if hasHull then Some(hull) else None,
                shiftValid, waterSummaryValid, protection)
    }

    constructor (arithmetic: Arithmetic)
      ensures Valid() && !initialized && ar == arithmetic
      ensures fresh(samples) && lastStatus == NotInitialized
    {
      ar := arithmetic;
      initialized := false;
      key := ChunkKey(0, 0, 0, 0);
      samples := new ScalarSample[0];
      revision, nextSequence, changedCount := 0, 0, 0;
      hull := Box3(GridPoint(0, 0, 0), GridPoint(0, 0, 0));
      hasHull, shiftValid, waterSummaryValid := false, true, false;
      protection := Open;
      lastStatus := NotInitialized;
    }

    static method AllFinite(samples: seq<ScalarSample>) returns (finite: bool)
      ensures finite <==> FiniteDensities(samples)
    {
      for i := 0 to |samples|
        invariant forall j :: 0 <= j < i ==> IsFinite(samples[j].density)
      {
        if !IsFinite(samples[i].density) {
          return false;
        }
      }
      return true;
    }

    /** The checks in their order; nothing is changed. */
    static method CheckPage(page: Page, expectedSource: U64, descriptor: Option<Descriptor>) returns (status: EditStatus)
      ensures status == InitialStatus(page, expectedSource, descriptor)
    {
      if !ValidPage(page) { return InvalidPage; }
      var finite := AllFinite(page.samples);
      if !finite { return InvalidPage; }
      if page.metadata.sourceRevision != expectedSource { return SourceRevisionMismatch; }
      if descriptor.Some? && descriptor.value.sourceRevision != expectedSource { return InvalidPage; }
      return Ok;
    }

    method Initialize(page: Page, expectedSource: U64, initialRevision: U64, descriptor: Option<Descriptor>)
      returns (status: EditStatus)
      modifies this
      ensures Valid() && (samples == old(samples) || fresh(samples))
      ensures status == lastStatus == InitialStatus(page, expectedSource, descriptor)
      ensures initialized <==> status == Ok
      ensures initialized ==> fresh(samples) && State() == InitialState(page, initialRevision, descriptor)
    {
      hide FiniteDensities;
      initialized := false;
      status := CheckPage(page, expectedSource, descriptor);
      lastStatus := status;
      if status != Ok { return; }
      assert ValidKey(page.metadata.key) && |page.samples| == SAMPLE_COUNT;
      hide InitialStatus, ValidPage, ValidKey;
      TakePage(page, initialRevision, descriptor);
    }

    static method Copied(values: seq<ScalarSample>) returns (a: array<ScalarSample>)
      ensures fresh(a) && a[..] == values
    {
      a := new ScalarSample[|values|](i requires 0 <= i < |values| => values[i]);
      assert a[..] == values;
    }

    /** An accepted page becomes the state. */
    method TakePage(page: Page, initialRevision: U64, descriptor: Option<Descriptor>)
      modifies this
      ensures initialized && lastStatus == old(lastStatus)
      ensures fresh(samples) && State() == InitialState(page, initialRevision, descriptor)
    {
      samples := Copied(page.samples);
      key, shiftValid, waterSummaryValid := page.metadata.key, page.shiftValid, page.waterSummaryValid;
      revision, nextSequence, changedCount, hasHull := initialRevision, 0, 0, false;
      protection := if descriptor.Some? then descriptor.value.protection else Open;
      initialized := true;
    }

    /** Put the noted samples back, last change first. */
    method Rollback(undo: seq<ChangedSample>, ghost was: seq<ScalarSample>, ghost edit: PageEdit, ghost k: nat)
      requires k < |was| == samples.Length
      requires Undoes(undo, was, edit, k)
      requires forall i :: 0 <= i < |was| ==> samples[i] == (if i <= k then edit.At(i, was[i]).sample else was[i])
      modifies samples
      ensures samples[..] == edit.RolledBack(was, k)
    {
      var n := |undo|;
      while n > 0
        invariant 0 <= n <= |undo|
        invariant forall i :: 0 <= i < |was| ==>
          samples[i] == (if i > k || Restored(undo, n, i) then was[i] else edit.At(i, was[i]).sample)
      {
        n := n - 1;
        samples[undo[n].index] := undo[n].previous;
      }
    }

    /** One sample of the pass: write it, note a change for undoing, roll back when it fails. */
    method EditSample(c: EditCommand, p: GridPoint, index: nat, undo: seq<ChangedSample>, ghost was: seq<ScalarSample>,
                      ghost edit: PageEdit)
      returns (undo': seq<ChangedSample>, ok: bool)
      requires edit == PageEdit(ar, c, key, protection)
      requires index < SAMPLE_COUNT == samples.Length && p == PointAt(key, index)
      requires Progress(edit, was, samples[..], index, undo)
      modifies samples
      ensures ok == edit.At(index, was[index]).ok
      ensures ok ==> Progress(edit, was, samples[..], index + 1, undo')
      ensures !ok ==> samples[..] == edit.RolledBack(was, index)
    {
      undo' := undo;
      if Protects(protection, p) {
        return undo, true;
      }
      var previous := samples[index];
      var outcome := ApplyToSample(ar, c, p, previous);
      samples[index] := outcome.sample;
      if !outcome.ok {
        Rollback(undo, was, edit, index);
        return undo, false;
      }
      if outcome.changed {
        undo' := undo + [ChangedSample(index, previous)];
        NoteChange(undo, was, edit, index);
      }
      return undo', true;
    }

    /** One row of samples. */
    method ApplyRow(c: EditCommand, y: int, z: int, first: nat, noted: seq<ChangedSample>, ghost was: seq<ScalarSample>,
                    ghost edit: PageEdit)
      returns (undo: seq<ChangedSample>, ok: bool)
      requires edit == PageEdit(ar, c, key, protection) && samples.Length == SAMPLE_COUNT
      requires LatticeCoordinate(y) && LatticeCoordinate(z) && first == SampleIndex(-1, y, z)
      requires Progress(edit, was, samples[..], first, noted)
      modifies samples
      ensures ok ==> Progress(edit, was, samples[..], first + SAMPLES_PER_AXIS, undo)
      ensures !ok ==>
        var k := edit.FirstFailure(was, 0); k < |was| && samples[..] == edit.RolledBack(was, k)
    {
      hide Progress, PageEdit.At, PageEdit.RolledBack, SamplePoint;
      undo, ok := noted, true;
      var x, index := -1, first;
      while x <= 17
        invariant -1 <= x <= 18 && index == first + x + 1
        invariant Progress(edit, was, samples[..], index, undo)
      {
        IndexOfCoordinates(key, x, y, z);
        FailingHere(edit, was, samples[..], index, undo);
        undo, ok := EditSample(c, SamplePoint(key, x, y, z), index, undo, was, edit);
        if !ok { return; }
        x, index := x + 1, index + 1;
      }
      ok := true;
    }

    /** The pass over the page's samples, with the undo list the source keeps for a failing sample. */
    method ApplyValues(c: EditCommand) returns (changed: nat, ok: bool)
      requires Valid() && initialized
      modifies this`waterSummaryValid, samples
      ensures ValuesResult(samples[..], changed, ok) == PageEdit(ar, c, key, protection).Values(old(samples[..]))
      ensures waterSummaryValid == (old(waterSummaryValid) && changed == 0)
      ensures !ok ==> changed == 0
    {
      if !MayIntersectPage(key, c.bounds) {
        return 0, true;
      }
      ghost var was := samples[..];
      ghost var edit := PageEdit(ar, c, key, protection);
      var undo: seq<ChangedSample> := [];
      var index := 0;
      var z := -1;
      while z <= 17
        invariant -1 <= z <= 18 && index == SampleIndex(-1, -1, z)
        invariant Progress(edit, was, samples[..], index, undo) && waterSummaryValid == old(waterSummaryValid)
      {
        var y := -1;
        while y <= 17
          invariant -1 <= y <= 18 && index == SampleIndex(-1, y, z)
          invariant Progress(edit, was, samples[..], index, undo) && waterSummaryValid == old(waterSummaryValid)
        {
          undo, ok := ApplyRow(c, y, z, index, undo, was, edit);
          if !ok { return 0, false; }
          y, index := y + 1, index + SAMPLES_PER_AXIS;
        }
        z := z + 1;
      }
      CompletePass(edit, was, samples[..], undo);
      if |undo| != 0 {
        waterSummaryValid := false;
      }
      return |undo|, true;
    }

    /** The bookkeeping after every sample took the command. */
    method Advance(c: EditCommand, changed: nat, intersects: bool)
      modifies this`revision, this`nextSequence, this`changedCount, this`hull, this`hasHull, this`shiftValid
      ensures
        var was := old(State());
        State() == was.(revision := c.worldRevision,
                        nextSequence := (c.sequence + 1) % U32_COUNT,
                        changedCount := (was.changedCount + changed) % U64_COUNT,
                        hull := if intersects then Some(Hull(was.hull, c.bounds)) else was.hull,
                        shiftValid := was.shiftValid && !(intersects && was.key.lod > 0))
    {
      if c.worldRevision != revision {
        revision, nextSequence := c.worldRevision, 0;
      }
      changedCount := (changedCount + changed) % U64_COUNT;
      if intersects {
        hull := Hull(if hasHull then Some(hull) else None, c.bounds);
        hasHull := true;
        if key.lod > 0 {
          shiftValid := false;
        }
      }
      nextSequence := (c.sequence + 1) % U32_COUNT;
    }

    method CheckOrder(c: EditCommand) returns (status: EditStatus)
      ensures status == Gate(revision, nextSequence, c)
    {
      if !ValidCommand(c) {
        return InvalidCommand;
      }
      if c.worldRevision == revision + 1 {
        return if c.sequence != 0 then SequenceMismatch else Ok;
      } else if c.worldRevision == revision {
        return if c.sequence != nextSequence then SequenceMismatch else Ok;
      }
      return WorldRevisionMismatch;
    }

    /** A command that passed the gate: edit the samples, then advance. */
    method ApplyOrdered(c: EditCommand) returns (status: EditStatus)
      requires Valid() && initialized
      modifies this, samples
      ensures initialized && samples == old(samples) && lastStatus == old(lastStatus)
      ensures Step(State(), status)
           == Finish(old(State()), c, PageEdit(ar, c, old(key), old(protection)).Values(old(samples[..])))
    {
      hide PageEdit.Values, Hull, MayIntersectPage, ValidKey;
      ghost var was := State();
      var intersects := MayIntersectPage(key, c.bounds);
      var changed, ok := ApplyValues(c);
      ghost var values := ValuesResult(samples[..], changed, ok);
      assert State() == was.(samples := values.samples, waterSummaryValid := was.waterSummaryValid && changed == 0);
      if !ok {
        return NonFiniteResult;
      }
      Advance(c, changed, intersects);
      return Ok;
    }

    method ApplyCommand(c: EditCommand) returns (status: EditStatus)
      requires Valid()
      modifies this, samples
      ensures Valid() && initialized == old(initialized) && samples == old(samples)
      ensures status == lastStatus
      ensures !old(initialized) ==> status == NotInitialized && State() == old(State())
      ensures old(initialized) ==>
        var r := PageEdits.ApplyCommand(ar, old(State()), c);
        State() == r.state && status == r.status
    {
      if !initialized {
        lastStatus := NotInitialized;
        return lastStatus;
      }
      lastStatus := CheckOrder(c);
      if lastStatus == Ok {
        assert State() == old(State());
        lastStatus := ApplyOrdered(c);
      }
      return lastStatus;
    }
  }

  ghost predicate Restored(undo: seq<ChangedSample>, from: nat, i: int) {
    exists j :: from <= j < |undo| && undo[j].index == i
  }

  ghost predicate Undoes(undo: seq<ChangedSample>, was: seq<ScalarSample>, edit: PageEdit, k: nat)
    requires k <= |was|
  {
    && (forall j :: 0 <= j < |undo| ==>
          undo[j].index < k && undo[j].previous == was[undo[j].index] && edit.At(undo[j].index, was[undo[j].index]).changed)
    && (forall i :: 0 <= i < k && edit.At(i, was[i]).changed ==> Restored(undo, 0, i))
  }

  /** Samples before `index` are edited and none of them failed; the undo list holds the changed ones. */
  ghost predicate Progress(edit: PageEdit, was: seq<ScalarSample>, now: seq<ScalarSample>, index: int,
                           undo: seq<ChangedSample>)
  {
    && |now| == |was| == SAMPLE_COUNT && 0 <= index <= SAMPLE_COUNT
    && (forall i :: 0 <= i < index ==> edit.At(i, was[i]).ok)
    && (forall i :: 0 <= i < SAMPLE_COUNT ==> now[i] == (if i < index then edit.At(i, was[i]).sample else was[i]))
    && |undo| == edit.ChangedBefore(was, index)
    && Undoes(undo, was, edit, index)
  }

  lemma NoteChange(undo: seq<ChangedSample>, was: seq<ScalarSample>, edit: PageEdit, k: nat)
    requires k < |was| && Undoes(undo, was, edit, k) && edit.At(k, was[k]).changed
    ensures Undoes(undo + [ChangedSample(k, was[k])], was, edit, k + 1)
  {
    var undo' := undo + [ChangedSample(k, was[k])];
    assert undo'[|undo|].index == k;
    forall i | 0 <= i < k && edit.At(i, was[i]).changed ensures Restored(undo', 0, i) {
      var j :| 0 <= j < |undo| && undo[j].index == i;
      assert undo'[j].index == i;
    }
  }

  /** Should the next sample fail, it is the first to do so. */
  lemma FailingHere(edit: PageEdit, was: seq<ScalarSample>, now: seq<ScalarSample>, k: nat, undo: seq<ChangedSample>)
    requires k < SAMPLE_COUNT && Progress(edit, was, now, k, undo)
    ensures |was| == SAMPLE_COUNT && (!edit.At(k, was[k]).ok ==> edit.FirstFailure(was, 0) == k)
  {}

  lemma CompletePass(edit: PageEdit, was: seq<ScalarSample>, now: seq<ScalarSample>, undo: seq<ChangedSample>)
    requires Progress(edit, was, now, SAMPLE_COUNT, undo)
    ensures edit.FirstFailure(was, 0) == |was| && now == edit.AllApplied(was)
  {}
}
