/** The append-only journal as a value: what appending, committing, loading and saving do to it. */
module Journals {
  import opened Numbers
  import opened EditCommands
  import opened EditTransactions
  import opened Bytes
  import opened Containers
  import opened TransactionFiles

  datatype JournalStatus =
    Ok | RecoveredTruncatedTail | NotInitialized
  | TransactionCapacityExceeded | CommandCapacityExceeded | ByteCapacityExceeded
  | SourceRevisionMismatch | WorldRevisionMismatch | DuplicateTransaction | DuplicateCommand
  | TransactionFailure | CorruptJournal | ReplayFailure

  datatype Limits = Limits(transactions: nat, commands: nat, bytes: nat)

  datatype JournalState = JournalState(
    initialized: bool, sourceRevision: U64, initialRevision: U64, currentRevision: U64, commandCount: nat, byteSize: nat,
    transactions: seq<EditTransaction>, segments: seq<seq<Byte>>, transactionIds: set<U128>, commandIds: set<U128>)

  const BLANK := JournalState(false, 0, 0, 0, 0, 0, [], [], {}, {})

  function Reset(source: U64, initial: U64): JournalState {
    JournalState(true, source, initial, initial, 0, 0, [], [], {}, {})
  }

  // ---- Appending ----

  function IdsOf(commands: seq<EditCommand>): set<U128> {
    set c | c in commands :: c.id
  }

  function ValidateAppend(limits: Limits, j: JournalState, t: EditTransaction, size: nat): JournalStatus {
    if !j.initialized then NotInitialized
    else if t.sourceRevision != j.sourceRevision then SourceRevisionMismatch
    else if t.baseRevision != j.currentRevision || j.currentRevision == U64_MAX
            || t.committedRevision != j.currentRevision + 1 then WorldRevisionMismatch
    else if |j.transactions| >= limits.transactions then TransactionCapacityExceeded
    else if |t.commands| > limits.commands - j.commandCount then CommandCapacityExceeded
    else if size > limits.bytes - j.byteSize then ByteCapacityExceeded
    else if t.id in j.transactionIds then DuplicateTransaction
    else if !(IdsOf(t.commands) !! j.commandIds) then DuplicateCommand
    else Ok
  }

  function Commit(j: JournalState, t: EditTransaction, segment: seq<Byte>): JournalState {
    j.(transactions := j.transactions + [t], segments := j.segments + [segment],
       transactionIds := j.transactionIds + {t.id}, commandIds := j.commandIds + IdsOf(t.commands),
       currentRevision := t.committedRevision,
       commandCount := j.commandCount + |t.commands|, byteSize := j.byteSize + |segment|)
  }

  datatype Prepared = Prepared(status: JournalStatus, segment: seq<Byte>)

  /** Writes the transaction, opens what was written, and checks that form against the journal. */
  ghost function PrepareAppend(sha: Hasher, limits: Limits, j: JournalState, t: EditTransaction): Prepared {
    var written := WriteTransaction(sha, t);
    if written.Failure? then Prepared(TransactionFailure, [])
    else
      var opened' := OpenTransaction(sha, written.value);
      if opened'.Failure? then Prepared(TransactionFailure, [])
      else
        var status := ValidateAppend(limits, j, opened'.value, |written.value|);
        Prepared(status, if status == Ok then written.value else [])
  }

  /** The transaction in the bytes, provided writing it again gives exactly these bytes. */
  ghost function Reopened(sha: Hasher, bytes: seq<Byte>): Option<EditTransaction> {
    var opened' := OpenTransaction(sha, bytes);
    if opened'.Failure? then None
    else if WriteTransaction(sha, opened'.value) != Success(bytes) then None
    else Some(opened'.value)
  }

  datatype Committed = Committed(state: JournalState, status: JournalStatus)

  ghost function CommitAppend(sha: Hasher, limits: Limits, j: JournalState, segment: seq<Byte>): Committed {
    var t := Reopened(sha, segment);
    if MeasureContainer(segment, EDIT_MAGIC) != Success(|segment|) || t.None? then Committed(j, TransactionFailure)
    else
      var status := ValidateAppend(limits, j, t.value, |segment|);
      if status != Ok then Committed(j, status) else Committed(Commit(j, t.value, segment), Ok)
  }

  ghost function Append(sha: Hasher, limits: Limits, j: JournalState, t: EditTransaction): Committed {
    var p := PrepareAppend(sha, limits, j, t);
    if p.status != Ok then Committed(j, p.status) else CommitAppend(sha, limits, j, p.segment)
  }

  // ---- Loading and saving ----

  datatype Loaded = Loaded(status: JournalStatus, committedBytes: nat, state: Option<JournalState>)

  /** Transactions from `offset` on are added to `j`; the state is absent when the receiver keeps its own. */
  ghost function LoadFrom(sha: Hasher, limits: Limits, j: JournalState, bytes: seq<Byte>, offset: nat, recover: bool): Loaded
    requires offset <= |bytes|
    decreases |bytes| - offset
  {
    if offset == |bytes| then Loaded(Ok, offset, Some(j))
    else
      var size := MeasureContainer(bytes[offset..], EDIT_MAGIC);
      if size == Failure(Truncated) then
        if recover then Loaded(RecoveredTruncatedTail, offset, Some(j)) else Loaded(CorruptJournal, 0, None)
      else if size.Failure? || size.value == 0 then Loaded(CorruptJournal, 0, None)
      else
        var segment := bytes[offset..offset + size.value];
        var t := Reopened(sha, segment);
        if t.None? then Loaded(CorruptJournal, 0, None)
        else
          var status := ValidateAppend(limits, j, t.value, |segment|);
          if status != Ok then Loaded(status, 0, None)
          else LoadFrom(sha, limits, Commit(j, t.value, segment), bytes, offset + size.value, recover)
  }

  ghost function Load(sha: Hasher, limits: Limits, bytes: seq<Byte>, source: U64, initial: U64, recover: bool): Loaded {
    LoadFrom(sha, limits, Reset(source, initial), bytes, 0, recover)
  }

  /** All segments one after another, as saving writes them. */
  function Concat(segments: seq<seq<Byte>>): seq<Byte> {
    if |segments| == 0 then [] else Concat(segments[..|segments| - 1]) + segments[|segments| - 1]
  }

  // ---- The invariant ----

  function CommandTotal(ts: seq<EditTransaction>): nat {
    if |ts| == 0 then 0 else CommandTotal(ts[..|ts| - 1]) + |ts[|ts| - 1].commands|
  }

  function TransactionIds(ts: seq<EditTransaction>): set<U128> {
    set t | t in ts :: t.id
  }

  function CommandIds(ts: seq<EditTransaction>): set<U128> {
    set t, c | t in ts && c in t.commands :: c.id
  }

  /** The one journal state that holds these transactions: every other field is determined by them. */
  function StateOf(source: U64, initial: U64, ts: seq<EditTransaction>, segments: seq<seq<Byte>>): JournalState
    requires initial + |ts| <= U64_MAX
  {
    JournalState(true, source, initial, initial + |ts|, CommandTotal(ts), |Concat(segments)|, ts, segments,
                 TransactionIds(ts), CommandIds(ts))
  }

  /** The bytes are the transaction's one stored form. */
  ghost predicate SegmentOf(sha: Hasher, t: EditTransaction, s: seq<Byte>) {
    WriteTransaction(sha, t) == Success(s) && OpenTransaction(sha, s) == Success(t)
  }

  /** Transaction i takes the world from revision initial + i to the next one, and shares no identity with earlier ones. */
  ghost predicate LinkedAt(source: U64, initial: U64, ts: seq<EditTransaction>, i: nat)
    requires i < |ts|
  {
    && ts[i].sourceRevision == source && ts[i].baseRevision == initial + i && ts[i].committedRevision == initial + i + 1
    && ts[i].id !in TransactionIds(ts[..i]) && IdsOf(ts[i].commands) !! CommandIds(ts[..i])
  }

  ghost predicate Linked(source: U64, initial: U64, ts: seq<EditTransaction>) {
    forall i :: 0 <= i < |ts| ==> LinkedAt(source, initial, ts, i)
  }

  ghost predicate AllStored(sha: Hasher, ts: seq<EditTransaction>, segments: seq<seq<Byte>>) {
    |ts| == |segments| && forall i {:trigger SegmentOf(sha, ts[i], segments[i])} :: 0 <= i < |ts| ==>
      SegmentOf(sha, ts[i], segments[i])
  }

  predicate WithinLimits(limits: Limits, j: JournalState) {
    |j.transactions| <= limits.transactions && j.commandCount <= limits.commands && j.byteSize <= limits.bytes
  }

  /** The transactions form one chain of revisions, every other field follows from them, and the limits hold. */
  ghost predicate Chained(limits: Limits, j: JournalState) {
    && WithinLimits(limits, j)
    && j.initialRevision + |j.transactions| <= U64_MAX && |j.segments| == |j.transactions|
    && (if j.initialized then j == StateOf(j.sourceRevision, j.initialRevision, j.transactions, j.segments) else j == BLANK)
    && Linked(j.sourceRevision, j.initialRevision, j.transactions)
  }

  ghost predicate Sound(sha: Hasher, limits: Limits, j: JournalState) {
    Chained(limits, j) && AllStored(sha, j.transactions, j.segments)
  }
}
