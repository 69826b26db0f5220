/** The append-only edit journal: typed transactions, their stored bytes, and the identities already used. */
module EditJournals {
  import opened Numbers
  import opened EditCommands
  import opened EditTransactions
  import opened Bytes
  import opened Containers
  import opened TransactionFiles
  import opened Journals
  import opened JournalProperties
  import opened JournalReplay
  import TransactionIO

  /** Receives replayed commands and may refuse one, judging by everything it was offered so far. */
  class ReplaySink {
    const accepts: Acceptance
    var offered: seq<EditCommand>

    constructor (accepts: Acceptance)
      ensures this.accepts == accepts && offered == []
    {
      this.accepts := accepts;
      offered := [];
    }

    method Apply(c: EditCommand) returns (ok: bool)
      modifies this
      ensures ok == accepts(old(offered), c) && offered == old(offered) + [c]
    {
      ok := accepts(offered, c);
      offered := offered + [c];
    }
  }

  class EditJournal {
    const sha: Hasher
    const limits: Limits
    var initialized: bool
    var sourceRevision: U64
    var initialRevision: U64
    var currentRevision: U64
    var commandCount: nat
    var byteSize: nat
    var transactions: seq<EditTransaction>
    var segments: seq<seq<Byte>>
    var transactionIds: set<U128>
    var commandIds: set<U128>

    ghost function State(): JournalState
      reads this
    {
      JournalState(initialized, sourceRevision, initialRevision, currentRevision, commandCount, byteSize, transactions,
                   segments, transactionIds, commandIds)
    }

    ghost predicate Valid()
      reads this
    {
      Sound(sha, limits, State())
    }

    constructor (sha: Hasher, limits: Limits)
      ensures Valid() && State() == BLANK && this.sha == sha && this.limits == limits
    {
      this.sha, this.limits := sha, limits;
      initialized, sourceRevision, initialRevision, currentRevision := false, 0, 0, 0;
      commandCount, byteSize, transactions, segments := 0, 0, [], [];
      transactionIds, commandIds := {}, {};
    }

    method Reset(source: U64, initial: U64)
      modifies this
      ensures Valid() && State() == Journals.Reset(source, initial)
    {
      hide SegmentOf;
      initialized, sourceRevision, initialRevision, currentRevision := true, source, initial, initial;
      commandCount, byteSize, transactions, segments := 0, 0, [], [];
      transactionIds, commandIds := {}, {};
      assert TransactionIds([]) == {} && CommandIds([]) == {};
    }

    method ValidateAppend(t: EditTransaction, size: nat) returns (status: JournalStatus)
      requires Valid()
      ensures status == Journals.ValidateAppend(limits, State(), t, size)
    {
      hide Sound;
      if !initialized { return NotInitialized; }
      if t.sourceRevision != sourceRevision { return SourceRevisionMismatch; }
      if t.baseRevision != currentRevision || currentRevision == U64_MAX || t.committedRevision != currentRevision + 1 {
        return WorldRevisionMismatch;
      }
      if |transactions| >= limits.transactions { return TransactionCapacityExceeded; }
      if |t.commands| > limits.commands - commandCount { return CommandCapacityExceeded; }
      if size > limits.bytes - byteSize { return ByteCapacityExceeded; }
      if t.id in transactionIds { return DuplicateTransaction; }
      for i := 0 to |t.commands|
        invariant forall k :: 0 <= k < i ==> t.commands[k].id !in commandIds
      {
        if t.commands[i].id in commandIds {
          assert t.commands[i].id in Journals.IdsOf(t.commands);
          return DuplicateCommand;
        }
      }
      return Ok;
    }

    method CommitValidated(t: EditTransaction, segment: seq<Byte>)
      requires Valid() && SegmentOf(sha, t, segment) && Journals.ValidateAppend(limits, State(), t, |segment|) == Ok
      modifies this
      ensures Valid() && State() == Commit(old(State()), t, segment)
    {
      hide Sound, SegmentOf, Journals.ValidateAppend, Journals.IdsOf, Commit;
      ghost var before := State();
      Extend(t, segment);
      CommitKeepsSound(sha, limits, before, t, segment);
    }

    method Extend(t: EditTransaction, segment: seq<Byte>)
      modifies this
      ensures State() == Commit(old(State()), t, segment)
    {
      hide Journals.IdsOf;
      transactions, segments := transactions + [t], segments + [segment];
      transactionIds := transactionIds + {t.id};
      InsertCommandIds(t.commands);
      currentRevision := t.committedRevision;
      commandCount := commandCount + |t.commands|;
      byteSize := byteSize + |segment|;
    }

    method InsertCommandIds(commands: seq<EditCommand>)
      modifies this`commandIds
      ensures commandIds == old(commandIds) + Journals.IdsOf(commands)
    {
      for i := 0 to |commands|
        invariant commandIds == old(commandIds) + Journals.IdsOf(commands[..i])
      {
        assert commands[..i + 1] == commands[..i] + [commands[i]];
        commandIds := commandIds + {commands[i].id};
      }
      assert commands[..|commands|] == commands;
    }

    /** The canonical check shared by committing and loading. */
    method Reopen(bytes: seq<Byte>) returns (t: Option<EditTransaction>)
      ensures t == Reopened(sha, bytes)
    {
      hide WriteTransaction, OpenTransaction;
      var document := TransactionIO.Open(sha, bytes);
      if document.Failure? { return None; }
      var canonical := TransactionIO.Write(sha, document.value);
      if canonical.Failure? || canonical.value != bytes { return None; }
      return Some(document.value);
    }

    method PrepareAppend(t: EditTransaction) returns (status: JournalStatus, segment: seq<Byte>)
      requires Valid()
      ensures Prepared(status, segment) == Journals.PrepareAppend(sha, limits, State(), t)
    {
      hide WriteTransaction, OpenTransaction, Sound, Journals.ValidateAppend;
      var written := TransactionIO.Write(sha, t);
      if written.Failure? { return TransactionFailure, []; }
      var document := TransactionIO.Open(sha, written.value);
      if document.Failure? { return TransactionFailure, []; }
      status := ValidateAppend(document.value, |written.value|);
      segment := if status == Ok then written.value else [];
    }

    method CommitAppend(segment: seq<Byte>) returns (status: JournalStatus)
      requires Valid()
      modifies this
      ensures Valid() && Committed(State(), status) == Journals.CommitAppend(sha, limits, old(State()), segment)
    {
      hide MeasureContainer, Reopened, Sound, SegmentOf, Journals.ValidateAppend, Commit;
      if MeasureContainer(segment, EDIT_MAGIC) != Success(|segment|) { return TransactionFailure; }
      var t := Reopen(segment);
      if t.None? { return TransactionFailure; }
      status := ValidateAppend(t.value, |segment|);
      if status == Ok {
        ReopenedIsStored(sha, segment, t.value);
        CommitValidated(t.value, segment);
      }
    }

    /** Prepares and commits in one call; the returned bytes are the ones to persist. */
    method Append(t: EditTransaction) returns (status: JournalStatus, segment: seq<Byte>)
      requires Valid()
      modifies this
      ensures Valid() && Committed(State(), status) == Journals.Append(sha, limits, old(State()), t)
      ensures segment == if status == Ok then Journals.PrepareAppend(sha, limits, old(State()), t).segment else []
    {
      hide Journals.PrepareAppend, Journals.CommitAppend, Sound;
      status, segment := PrepareAppend(t);
      if status != Ok {
        NothingPrepared(sha, limits, State(), t);
        return;
      }
      status := CommitAppend(segment);
      if status != Ok { segment := []; }
    }

    method SwapRevisions(other: EditJournal)
      requires other != this
      modifies this`initialized, this`sourceRevision, this`initialRevision, this`currentRevision
      modifies other`initialized, other`sourceRevision, other`initialRevision, other`currentRevision
      ensures initialized == old(other.initialized) && other.initialized == old(initialized)
      ensures sourceRevision == old(other.sourceRevision) && other.sourceRevision == old(sourceRevision)
      ensures initialRevision == old(other.initialRevision) && other.initialRevision == old(initialRevision)
      ensures currentRevision == old(other.currentRevision) && other.currentRevision == old(currentRevision)
    {
      initialized, other.initialized := other.initialized, initialized;
      sourceRevision, other.sourceRevision := other.sourceRevision, sourceRevision;
      initialRevision, other.initialRevision := other.initialRevision, initialRevision;
      currentRevision, other.currentRevision := other.currentRevision, currentRevision;
    }

    method SwapState(other: EditJournal)
      requires other != this
      modifies this, other
      ensures State() == old(other.State()) && other.State() == old(State())
    {
      SwapRevisions(other);
      commandCount, other.commandCount := other.commandCount, commandCount;
      byteSize, other.byteSize := other.byteSize, byteSize;
      transactions, other.transactions := other.transactions, transactions;
      segments, other.segments := other.segments, segments;
      transactionIds, other.transactionIds := other.transactionIds, transactionIds;
      commandIds, other.commandIds := other.commandIds, commandIds;
    }

    /** Adds the transactions in the bytes one container after another, up to the end or an incomplete tail. */
    method LoadSegments(bytes: seq<Byte>, recover: bool) returns (status: JournalStatus, committed: nat)
      requires Valid()
      modifies this
      ensures
        var r := LoadFrom(sha, limits, old(State()), bytes, 0, recover);
        Valid() && status == r.status && committed == r.committedBytes && (r.state.Some? ==> State() == r.state.value)
    {
      hide Sound, SegmentOf, Journals.ValidateAppend, Commit, MeasureContainer, Reopened, State;
      var offset := 0;
      while offset < |bytes|
        invariant offset <= |bytes| && Valid()
        invariant LoadFrom(sha, limits, State(), bytes, offset, recover) == LoadFrom(sha, limits, old(State()), bytes, 0, recover)
      {
        var size := MeasureContainer(bytes[offset..], EDIT_MAGIC);
        if size == Failure(Truncated) && recover { return RecoveredTruncatedTail, offset; }
        if size.Failure? || size.value == 0 { return CorruptJournal, 0; }
        var segment := bytes[offset..offset + size.value];
        var t := Reopen(segment);
        if t.None? { return CorruptJournal, 0; }
        status := ValidateAppend(t.value, |segment|);
        if status != Ok { return status, 0; }
        ReopenedIsStored(sha, segment, t.value);
        CommitValidated(t.value, segment);
        offset := offset + size.value;
      }
      return Ok, offset;
    }

    /** Builds a replacement from the bytes; this journal changes only once the whole load has succeeded. */
    method Load(bytes: seq<Byte>, source: U64, initial: U64, recover: bool) returns (status: JournalStatus, committed: nat)
      requires Valid()
      modifies this
      ensures Valid()
      ensures
        var r := Journals.Load(sha, limits, bytes, source, initial, recover);
        && status == r.status && committed == r.committedBytes
        && State() == if r.state.Some? then r.state.value else old(State())
    {
      hide Sound, LoadFrom, MeasureContainer, Journals.Reset, State, Concat;
      LoadAccountsForEveryByte(sha, limits, bytes, source, initial, recover);
      var replacement := new EditJournal(sha, limits);
      replacement.Reset(source, initial);
      status, committed := replacement.LoadSegments(bytes, recover);
      if status == Ok || status == RecoveredTruncatedTail {
        SwapState(replacement);
      }
    }

    method Save() returns (status: JournalStatus, output: seq<Byte>)
      requires Valid()
      ensures status == if initialized then Ok else NotInitialized
      ensures output == if initialized then Concat(segments) else []
    {
      hide Linked, AllStored, CommandTotal, TransactionIds, CommandIds;
      output := [];
      if !initialized { return NotInitialized, []; }
      for i := 0 to |segments|
        invariant output == Concat(segments[..i])
      {
        assert segments[..i + 1][..i] == segments[..i];
        output := output + segments[i];
      }
      assert segments[..|segments|] == segments;
      status := if |output| == byteSize then Ok else CorruptJournal;
    }
  }

  lemma NothingPrepared(sha: Hasher, limits: Limits, j: JournalState, t: EditTransaction)
    requires Journals.PrepareAppend(sha, limits, j, t).status != Ok
    ensures Journals.PrepareAppend(sha, limits, j, t).segment == []
  {
    hide WriteTransaction, OpenTransaction, ValidateAppend;
  }

  // ---- Replaying ----

  method FeedCommands(sink: ReplaySink, commands: seq<EditCommand>) returns (ok: bool)
    modifies sink
    ensures Fed(sink.offered, ok) == Feed(sink.accepts, old(sink.offered), commands)
  {
    for i := 0 to |commands|
      invariant Feed(sink.accepts, old(sink.offered), commands) == Feed(sink.accepts, sink.offered, commands[i..])
    {
      assert commands[i..][1..] == commands[i + 1..];
      ok := sink.Apply(commands[i]);
      if !ok { return; }
    }
    return true;
  }

  lemma FeedOneMore(accepts: Acceptance, offered: seq<EditCommand>, ts: seq<EditTransaction>, low: nat, i: nat)
    requires low <= i < |ts|
    ensures Feed(accepts, offered, CommandsOf(ts[low..i + 1]))
         == var first := Feed(accepts, offered, CommandsOf(ts[low..i]));
            if first.ok then Feed(accepts, first.offered, ts[i].commands) else first
  {
    assert ts[low..i + 1][..i - low] == ts[low..i];
    FeedInParts(accepts, offered, CommandsOf(ts[low..i]), ts[i].commands);
  }

  lemma {:induction false} RefusalIsFinal(accepts: Acceptance, offered: seq<EditCommand>, ts: seq<EditTransaction>,
                                          low: nat, i: nat, high: nat)
    requires low <= i <= high <= |ts| && !Feed(accepts, offered, CommandsOf(ts[low..i])).ok
    ensures Feed(accepts, offered, CommandsOf(ts[low..high])) == Feed(accepts, offered, CommandsOf(ts[low..i]))
    decreases high - i
  {
    if i < high {
      FeedOneMore(accepts, offered, ts, low, i);
      RefusalIsFinal(accepts, offered, ts, low, i + 1, high);
    }
  }

  /** Feeds the sink every command up to a revision, stopping at the first transaction past it. */
  method ReplayUntil(j: EditJournal, high: U64, sink: ReplaySink) returns (status: JournalStatus)
    requires j.Valid()
    modifies sink
    ensures status == NotInitialized <==> !j.initialized
    ensures status == WorldRevisionMismatch <==> j.initialized && !InRange(j.State(), j.initialRevision, high)
    ensures status in {NotInitialized, WorldRevisionMismatch} ==> sink.offered == old(sink.offered)
    ensures j.initialized && InRange(j.State(), j.initialRevision, high) ==>
      Fed(sink.offered, status == Ok)
        == Feed(sink.accepts, old(sink.offered), CommandsOf(Between(j.State(), j.initialRevision, high)))
      && status in {Ok, ReplayFailure}
  {
    hide SegmentOf, TransactionIds, CommandIds, CommandTotal, Concat, Feed, CommandsOf, AllStored, Linked;
    if !j.initialized { return NotInitialized; }
    if high < j.initialRevision || high > j.currentRevision { return WorldRevisionMismatch; }
    var ts := j.transactions;
    ghost var to := high - j.initialRevision;
    NothingFed(sink.accepts, sink.offered, ts, 0);
    var i := 0;
    while i < |ts|
      invariant 0 <= i <= to
      invariant Fed(sink.offered, true) == Feed(sink.accepts, old(sink.offered), CommandsOf(ts[0..i]))
    {
      LinkAt(j.sourceRevision, j.initialRevision, ts, i);
      if ts[i].committedRevision > high { break; }
      var ok := FeedCommands(sink, ts[i].commands);
      FeedOneMore(sink.accepts, old(sink.offered), ts, 0, i);
      if !ok {
        RefusalIsFinal(sink.accepts, old(sink.offered), ts, 0, i + 1, to);
        return ReplayFailure;
      }
      i := i + 1;
    }
    return Ok;
  }

  /** Feeds the sink the commands that take the world from one revision to another: transactions at or below the lower
      revision are passed over, and the walk stops at the first one past the upper. */
  method ReplayAfterUntil(j: EditJournal, low: U64, high: U64, sink: ReplaySink) returns (status: JournalStatus)
    requires j.Valid()
    modifies sink
    ensures status == NotInitialized <==> !j.initialized
    ensures status == WorldRevisionMismatch <==> j.initialized && !InRange(j.State(), low, high)
    ensures status in {NotInitialized, WorldRevisionMismatch} ==> sink.offered == old(sink.offered)
    ensures j.initialized && InRange(j.State(), low, high) ==>
      Fed(sink.offered, status == Ok) == Feed(sink.accepts, old(sink.offered), CommandsOf(Between(j.State(), low, high)))
      && status in {Ok, ReplayFailure}
  {
    hide SegmentOf, TransactionIds, CommandIds, CommandTotal, Concat, Feed, CommandsOf, AllStored, Linked;
    if !j.initialized { return NotInitialized; }
    if low < j.initialRevision || low > high || high > j.currentRevision { return WorldRevisionMismatch; }
    var ts := j.transactions;
    ghost var from, to := low - j.initialRevision, high - j.initialRevision;
    NothingFed(sink.accepts, sink.offered, ts, from);
    var i := 0;
    while i < |ts|
      invariant 0 <= i <= to
      invariant i <= from ==> sink.offered == old(sink.offered)
      invariant from <= i ==> Fed(sink.offered, true) == Feed(sink.accepts, old(sink.offered), CommandsOf(ts[from..i]))
    {
      LinkAt(j.sourceRevision, j.initialRevision, ts, i);
      if ts[i].committedRevision <= low {
        i := i + 1;
        continue;
      }
      if ts[i].committedRevision > high { break; }
      var ok := FeedCommands(sink, ts[i].commands);
      FeedOneMore(sink.accepts, old(sink.offered), ts, from, i);
      if !ok {
        RefusalIsFinal(sink.accepts, old(sink.offered), ts, from, i + 1, to);
        return ReplayFailure;
      }
      i := i + 1;
    }
    return Ok;
  }

  lemma LinkAt(source: U64, initial: U64, ts: seq<EditTransaction>, i: nat)
    requires Linked(source, initial, ts) && i < |ts|
    ensures ts[i].committedRevision == initial + i + 1
  {
    assert LinkedAt(source, initial, ts, i);
    hide TransactionIds, CommandIds, IdsOf;
  }

  lemma NothingFed(accepts: Acceptance, offered: seq<EditCommand>, ts: seq<EditTransaction>, n: nat)
    requires n <= |ts|
    ensures Feed(accepts, offered, CommandsOf(ts[n..n])) == Fed(offered, true)
  {
    assert ts[n..n] == [];
  }
}
