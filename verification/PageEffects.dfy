/** What an accepted command leaves on a whole page, when it is accepted, and in which order commands are. */
module PageEffects {
  import opened Numbers
  import opened EditCommands
  import opened SampleEdits
  import opened PageEdits
  import opened PageRollback
  import opened SampleEffects

  /** The sample lies in the sealed bottom of the world: at or below the top of the boundary's cells. */
  predicate InTheSeal(st: PageState, i: nat) {
    st.protection.Sealed? && PointAt(st.key, i).y <= 16 * st.protection.chunkY + st.protection.thickness
  }

  /** The command edits the sample: the page is not skipped, and the sample is covered and not sealed. */
  predicate Edits(st: PageState, c: EditCommand, i: nat) {
    MayIntersectPage(st.key, c.bounds) && Contains(c, PointAt(st.key, i)) && !InTheSeal(st, i)
  }

  lemma GatePassed(ar: Arithmetic, st: PageState, c: EditCommand)
    requires ApplyCommand(ar, st, c).status == Ok
    ensures ValidCommand(c)
  {}

  /** Every sample it edits is left finite and as the operation should leave it, every other sample as it was. */
  lemma AcceptedCommandLeavesItsEffect(ar: Arithmetic, st: PageState, c: EditCommand, i: nat)
    requires WellFormed(st) && i < SAMPLE_COUNT && ApplyCommand(ar, st, c).status == Ok
    ensures WellFormed(ApplyCommand(ar, st, c).state)
    ensures
      var t := ApplyCommand(ar, st, c).state.samples[i];
      if Edits(st, c, i) then FiniteSample(t) && Effect(ar, c, PointAt(st.key, i), st.samples[i], t)
      else t == st.samples[i]
  {
    hide Effect, Contains, ValidCommand, ApplyCommand, Written, PointAt;
    GatePassed(ar, st, c);
    AcceptedCommandAt(ar, st, c, i);
    if Edits(st, c, i) {
      AcceptedAt(ar, st, c, i);
      EditedSampleHasEffect(ar, c, PointAt(st.key, i), st.samples[i]);
    }
  }

  lemma AcceptedAt(ar: Arithmetic, st: PageState, c: EditCommand, i: nat)
    requires WellFormed(st) && i < SAMPLE_COUNT && ApplyCommand(ar, st, c).status == Ok && Edits(st, c, i)
    ensures ApplyToSample(ar, c, PointAt(st.key, i), st.samples[i]).ok
  {
    hide Contains, ValidCommand, PointAt, ApplyToSample;
    var edit := PageEdit(ar, c, st.key, st.protection);
    assert edit.At(i, st.samples[i]).ok;
  }

  /** Some finite sample is what the command should leave there. */
  ghost predicate HasEffect(ar: Arithmetic, st: PageState, c: EditCommand, i: nat)
    requires i < |st.samples|
  {
    exists t :: FiniteSample(t) && Effect(ar, c, PointAt(st.key, i), st.samples[i], t)
  }

  lemma SampleTakesTheCommand(ar: Arithmetic, st: PageState, c: EditCommand, i: nat)
    requires ValidCommand(c) && i < |st.samples| && Reached(st, c, i)
    ensures PageEdit(ar, c, st.key, st.protection).At(i, st.samples[i]).ok <==> HasEffect(ar, st, c, i)
  {
    hide Effect, Contains, ValidCommand, Written, PointAt;
    var p, s := PointAt(st.key, i), st.samples[i];
    if ApplyToSample(ar, c, p, s).ok {
      EditedSampleHasEffect(ar, c, p, s);
    }
    if HasEffect(ar, st, c, i) {
      var t :| FiniteSample(t) && Effect(ar, c, p, s, t);
      EffectIsTheEditedSample(ar, c, p, s, t);
    }
  }

  /** A command in its turn is accepted exactly when every sample it edits can be left, finite, as the operation should. */
  lemma AcceptedExactly(ar: Arithmetic, st: PageState, c: EditCommand)
    requires InTurn(st, c)
    ensures ApplyCommand(ar, st, c).status == Ok <==>
      forall i: nat :: i < |st.samples| && Edits(st, c, i) ==> HasEffect(ar, st, c, i)
    ensures ApplyCommand(ar, st, c).status in {Ok, NonFiniteResult}
  {
    hide Contains, ValidCommand, PointAt, HasEffect, MayIntersectPage, Written;
    var edit := PageEdit(ar, c, st.key, st.protection);
    forall i: nat | i < |st.samples| && Reached(st, c, i)
      ensures edit.At(i, st.samples[i]).ok <==> HasEffect(ar, st, c, i)
    {
      SampleTakesTheCommand(ar, st, c, i);
    }
  }

  lemma SealedUnderOneCommand(ar: Arithmetic, st: PageState, c: EditCommand, i: nat)
    requires i < |st.samples| && InTheSeal(st, i)
    ensures
      var end := ApplyCommand(ar, st, c).state;
      && |end.samples| == |st.samples| && end.samples[i] == st.samples[i]
      && end.key == st.key && end.protection == st.protection
  {
    hide ValidCommand, PointAt, MayIntersectPage, ApplyToSample;
  }

  /** No replay, accepted or refused, ever changes a sealed sample. */
  lemma {:induction false} SealedSamplesStay(ar: Arithmetic, st: PageState, commands: seq<EditCommand>, i: nat)
    requires i < |st.samples| && InTheSeal(st, i)
    ensures
      var end := Replay(ar, st, commands).state;
      |end.samples| == |st.samples| && end.samples[i] == st.samples[i]
    decreases |commands|
  {
    hide ApplyCommand, PointAt;
    if |commands| > 0 {
      SealedUnderOneCommand(ar, st, commands[0], i);
      SealedSamplesStay(ar, ApplyCommand(ar, st, commands[0]).state, commands[1..], i);
    }
  }

  // ---- Counting the changes ----

  ghost function ChangedSamples(before: seq<ScalarSample>, after: seq<ScalarSample>, n: nat): set<nat>
    requires n <= |before| == |after|
  {
    set i: nat | i < n && !SameSample(before[i], after[i])
  }

  lemma {:induction false} ChangesAreCounted(edit: PageEdit, samples: seq<ScalarSample>, n: nat)
    requires n <= |samples| && forall i :: 0 <= i < n ==> edit.At(i, samples[i]).ok
    ensures edit.ChangedBefore(samples, n) == |ChangedSamples(samples, edit.AllApplied(samples), n)|
    decreases n
  {
    hide PageEdit.At, SameSample, ChangedSamples;
    if n > 0 {
      ChangesAreCounted(edit, samples, n - 1);
      NotedWhenChanged(edit, n - 1, samples[n - 1]);
      OneMoreSample(samples, edit.AllApplied(samples), n);
    } else {
      NoSample(samples, edit.AllApplied(samples));
    }
  }

  lemma NoSample(before: seq<ScalarSample>, after: seq<ScalarSample>)
    requires |before| == |after|
    ensures |ChangedSamples(before, after, 0)| == 0
  {}

  lemma OneMoreSample(before: seq<ScalarSample>, after: seq<ScalarSample>, n: nat)
    requires 0 < n <= |before| == |after|
    ensures |ChangedSamples(before, after, n)|
         == |ChangedSamples(before, after, n - 1)| + (if SameSample(before[n - 1], after[n - 1]) then 0 else 1)
  {
    hide SameSample;
    var fewer := ChangedSamples(before, after, n - 1);
    assert ChangedSamples(before, after, n)
        == if SameSample(before[n - 1], after[n - 1]) then fewer else fewer + {n - 1};
  }

  lemma NotedWhenChanged(edit: PageEdit, i: nat, s: ScalarSample)
    requires edit.At(i, s).ok
    ensures edit.At(i, s).changed <==> !SameSample(s, edit.At(i, s).sample)
  {
    hide Contains, Written, PointAt, Protects;
  }

  /** The counter rises by the number of samples that read differently, and the water summary lasts until one does. */
  lemma AcceptedCommandCounts(ar: Arithmetic, st: PageState, c: EditCommand)
    requires ApplyCommand(ar, st, c).status == Ok
    ensures
      var end := ApplyCommand(ar, st, c).state;
      && |end.samples| == |st.samples|
      && end.changedCount == (st.changedCount + |ChangedSamples(st.samples, end.samples, |st.samples|)|) % U64_COUNT
      && (end.waterSummaryValid <==>
            st.waterSummaryValid && forall i :: 0 <= i < |st.samples| ==> SameSample(st.samples[i], end.samples[i]))
  {
    hide ValidCommand, PageEdit.At, SameSample;
    var edit := PageEdit(ar, c, st.key, st.protection);
    var end := ApplyCommand(ar, st, c).state;
    var changed := ChangedSamples(st.samples, end.samples, |st.samples|);
    if MayIntersectPage(st.key, c.bounds) {
      ChangesAreCounted(edit, st.samples, |st.samples|);
      assert end.samples == edit.AllApplied(st.samples);
    } else {
      forall i | 0 <= i < |st.samples| ensures SameSample(st.samples[i], end.samples[i]) {
        ReadsAsItself(st.samples[i]);
      }
    }
    assert changed == {} <==> forall i :: 0 <= i < |st.samples| ==> SameSample(st.samples[i], end.samples[i]) by {
      forall i | 0 <= i < |st.samples| && !SameSample(st.samples[i], end.samples[i]) ensures i in changed {}
    }
  }

  lemma ReadsAsItself(s: ScalarSample)
    ensures SameSample(s, s)
  {}

  // ---- The order of commands ----

  /** b comes right after a: next in its revision, or first of the next one. */
  predicate Follows(a: EditCommand, b: EditCommand) {
    if b.worldRevision == a.worldRevision then b.sequence == (a.sequence + 1) % U32_COUNT
    else b.worldRevision == a.worldRevision + 1 && b.sequence == 0
  }

  /** A valid command, next in the page's revision or first of the one after. */
  predicate InTurn(st: PageState, c: EditCommand) {
    && ValidCommand(c)
    && (if c.worldRevision == st.revision then c.sequence == st.nextSequence
        else c.worldRevision == st.revision + 1 && c.sequence == 0)
  }

  /** Why a command out of turn is refused; nothing changes then. */
  lemma OutOfTurn(ar: Arithmetic, st: PageState, c: EditCommand)
    ensures
      var r := ApplyCommand(ar, st, c);
      && (r.status == InvalidCommand <==> !ValidCommand(c))
      && (r.status == WorldRevisionMismatch <==>
            ValidCommand(c) && c.worldRevision != st.revision && c.worldRevision != st.revision + 1)
      && (r.status in {Ok, NonFiniteResult} <==> InTurn(st, c))
      && (!InTurn(st, c) ==> r.state == st && r.status in {InvalidCommand, WorldRevisionMismatch, SequenceMismatch})
  {
    hide ValidCommand, MayIntersectPage, PageEdit.At;
  }

  ghost predicate InOrder(st: PageState, commands: seq<EditCommand>) {
    && (forall c :: c in commands ==> ValidCommand(c))
    && (|commands| > 0 ==> InTurn(st, commands[0]))
    && (forall k :: 0 < k < |commands| ==> Follows(commands[k - 1], commands[k]))
  }

  lemma OrderAfterOne(ar: Arithmetic, st: PageState, commands: seq<EditCommand>)
    requires |commands| > 0 && ApplyCommand(ar, st, commands[0]).status == Ok
    ensures InOrder(st, commands) <==> InOrder(ApplyCommand(ar, st, commands[0]).state, commands[1..])
  {
    hide ValidCommand, MayIntersectPage, PageEdit.At;
    var next := ApplyCommand(ar, st, commands[0]).state;
    OutOfTurn(ar, st, commands[0]);
    assert next.revision == commands[0].worldRevision && next.nextSequence == (commands[0].sequence + 1) % U32_COUNT;
    if |commands| > 1 {
      assert Follows(commands[0], commands[1]) && ValidCommand(commands[1]) <==> InTurn(next, commands[1]);
      assert commands[1] in commands && commands[1..][0] == commands[1];
    }
    if InOrder(next, commands[1..]) {
      forall k | 0 < k < |commands| ensures Follows(commands[k - 1], commands[k]) {
        if k > 1 { assert commands[1..][k - 2] == commands[k - 1] && commands[1..][k - 1] == commands[k]; }
      }
    }
  }

  /** A replay accepts valid commands that follow one another and no others, up to results that are not finite. */
  lemma {:induction false} ReplayKeepsTheOrder(ar: Arithmetic, st: PageState, commands: seq<EditCommand>)
    ensures Replay(ar, st, commands).status == Ok ==> InOrder(st, commands)
    ensures InOrder(st, commands) ==> Replay(ar, st, commands).status in {Ok, NonFiniteResult}
    decreases |commands|
  {
    hide ApplyCommand, ValidCommand;
    if |commands| > 0 {
      OutOfTurn(ar, st, commands[0]);
      if ApplyCommand(ar, st, commands[0]).status == Ok {
        OrderAfterOne(ar, st, commands);
        ReplayKeepsTheOrder(ar, ApplyCommand(ar, st, commands[0]).state, commands[1..]);
      }
    }
  }
}
