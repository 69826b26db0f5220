/** Replaying a journal: which commands reach the sink, how replays compose, and that pages follow the journal. */
module JournalReplay {
  import opened Numbers
  import opened EditCommands
  import opened EditTransactions
  import opened Bytes
  import opened TransactionFiles
  import opened TransactionRoundTrip
  import opened Journals
  import opened JournalProperties
  import SampleEdits
  import PageEdits
  import Rebase

  /** What a sink answers, given everything offered to it before. */
  type Acceptance = (seq<EditCommand>, EditCommand) -> bool

  datatype Fed = Fed(offered: seq<EditCommand>, ok: bool)

  /** Commands offered one after another until one is refused. */
  function Feed(accepts: Acceptance, offered: seq<EditCommand>, commands: seq<EditCommand>): Fed
    decreases |commands|
  {
    if |commands| == 0 then Fed(offered, true)
    else if !accepts(offered, commands[0]) then Fed(offered + [commands[0]], false)
    else Feed(accepts, offered + [commands[0]], commands[1..])
  }

  function CommandsOf(ts: seq<EditTransaction>): seq<EditCommand> {
    if |ts| == 0 then [] else CommandsOf(ts[..|ts| - 1]) + ts[|ts| - 1].commands
  }

  predicate InRange(j: JournalState, low: U64, high: U64) {
    j.initialRevision <= low <= high <= j.currentRevision
  }

  /** The transactions that take the world from revision `low` to revision `high`, by position alone. */
  function Between(j: JournalState, low: U64, high: U64): seq<EditTransaction>
    requires InRange(j, low, high) && j.currentRevision - j.initialRevision <= |j.transactions|
  {
    j.transactions[low - j.initialRevision..high - j.initialRevision]
  }

  lemma {:induction false} FeedInParts(accepts: Acceptance, offered: seq<EditCommand>, a: seq<EditCommand>, b: seq<EditCommand>)
    ensures Feed(accepts, offered, a + b)
         == var first := Feed(accepts, offered, a); if first.ok then Feed(accepts, first.offered, b) else first
    decreases |a|
  {
    if |a| == 0 {
      assert a + b == b;
    } else {
      assert (a + b)[1..] == a[1..] + b;
      FeedInParts(accepts, offered + [a[0]], a[1..], b);
    }
  }

  lemma {:induction false} CommandsInParts(a: seq<EditTransaction>, b: seq<EditTransaction>)
    ensures CommandsOf(a + b) == CommandsOf(a) + CommandsOf(b)
    decreases |b|
  {
    if |b| == 0 {
      assert a + b == a;
    } else {
      var n := |b| - 1;
      assert (a + b)[..|a| + n] == a + b[..n] && (a + b)[|a| + n] == b[n];
      CommandsEndWith(a + b);
      CommandsEndWith(b);
      hide CommandsOf;
      CommandsInParts(a, b[..n]);
    }
  }

  lemma CommandsEndWith(ts: seq<EditTransaction>)
    requires |ts| > 0
    ensures CommandsOf(ts) == CommandsOf(ts[..|ts| - 1]) + ts[|ts| - 1].commands
  {}

  /** Replaying to a revision and then on from it is the same, for any sink that did not refuse, as replaying at once. */
  lemma ReplaySplits(accepts: Acceptance, offered: seq<EditCommand>, j: JournalState, low: U64, middle: U64, high: U64)
    requires InRange(j, low, middle) && InRange(j, middle, high)
    requires j.currentRevision - j.initialRevision <= |j.transactions|
    ensures
      var first := Feed(accepts, offered, CommandsOf(Between(j, low, middle)));
      Feed(accepts, offered, CommandsOf(Between(j, low, high)))
      == if first.ok then Feed(accepts, first.offered, CommandsOf(Between(j, middle, high))) else first
  {
    assert Between(j, low, high) == Between(j, low, middle) + Between(j, middle, high);
    CommandsInParts(Between(j, low, middle), Between(j, middle, high));
    FeedInParts(accepts, offered, CommandsOf(Between(j, low, middle)), CommandsOf(Between(j, middle, high)));
  }

  // ---- Which commands are replayed ----

  /** The commands after one revision and up to another, in order. */
  function After(commands: seq<EditCommand>, low: U64, high: U64): seq<EditCommand> {
    if |commands| == 0 then []
    else
      var c := commands[|commands| - 1];
      After(commands[..|commands| - 1], low, high) + (if low < c.worldRevision <= high then [c] else [])
  }

  lemma {:induction false} AfterInParts(a: seq<EditCommand>, b: seq<EditCommand>, low: U64, high: U64)
    ensures After(a + b, low, high) == After(a, low, high) + After(b, low, high)
    decreases |b|
  {
    if |b| == 0 {
      assert a + b == a;
    } else {
      assert (a + b)[..|a + b| - 1] == a + b[..|b| - 1];
      AfterInParts(a, b[..|b| - 1], low, high);
    }
  }

  lemma {:induction false} AfterOfOneRevision(commands: seq<EditCommand>, revision: nat, low: U64, high: U64)
    requires forall c :: c in commands ==> c.worldRevision == revision
    ensures After(commands, low, high) == if low < revision <= high then commands else []
    decreases |commands|
  {
    if |commands| > 0 {
      var n := |commands| - 1;
      AfterOfOneRevision(commands[..n], revision, low, high);
      assert commands == commands[..n] + [commands[n]];
    }
  }

  lemma TransactionIsOfOneRevision(sha: Hasher, limits: Limits, j: JournalState, i: nat)
    requires Sound(sha, limits, j) && j.initialized && i < |j.transactions|
    ensures forall c :: c in j.transactions[i].commands ==> c.worldRevision == j.initialRevision + i + 1
  {
    hide SegmentOf, Sequenced;
    assert LinkedAt(j.sourceRevision, j.initialRevision, j.transactions, i);
    assert SegmentOf(sha, j.transactions[i], j.segments[i]);
    StoredCommandsAreSequenced(sha, j.transactions[i], j.segments[i]);
    SequencedAreOfOneRevision(j.transactions[i].commands, 0, j.transactions[i].committedRevision);
  }

  lemma SequencedAreOfOneRevision(commands: seq<EditCommand>, index: nat, revision: U64)
    requires Sequenced(commands, index, revision)
    ensures forall c :: c in commands ==> c.worldRevision == revision
  {
    hide ValidCommand;
  }

  lemma {:induction false} FirstTransactions(sha: Hasher, limits: Limits, j: JournalState, low: nat, high: nat, n: nat)
    requires Sound(sha, limits, j) && j.initialized && low <= high <= |j.transactions| && n <= |j.transactions|
    requires j.initialRevision + high <= U64_MAX
    ensures After(CommandsOf(j.transactions[..n]), j.initialRevision + low, j.initialRevision + high)
         == CommandsOf(if n <= low then [] else j.transactions[low..if n < high then n else high])
    decreases n
  {
    hide Sound, After, CommandsOf;
    var ts := j.transactions;
    var from, to := j.initialRevision + low, j.initialRevision + high;
    NothingAfter(from, to);
    if n > 0 {
      FirstTransactions(sha, limits, j, low, high, n - 1);
      assert ts[..n][..n - 1] == ts[..n - 1] && ts[..n][n - 1] == ts[n - 1];
      CommandsEndWith(ts[..n]);
      AfterInParts(CommandsOf(ts[..n - 1]), ts[n - 1].commands, from, to);
      TransactionIsOfOneRevision(sha, limits, j, n - 1);
      AfterOfOneRevision(ts[n - 1].commands, j.initialRevision + n, from, to);
      if low < n <= high {
        assert ts[low..n][..n - 1 - low] == ts[low..n - 1] && ts[low..n][n - 1 - low] == ts[n - 1];
        CommandsEndWith(ts[low..n]);
        assert n - 1 <= low ==> ts[low..n - 1] == [];
      }
    } else {
      assert ts[..n] == [];
    }
  }

  lemma NothingAfter(low: U64, high: U64)
    ensures CommandsOf([]) == [] && After([], low, high) == []
  {}

  /** Between two revisions of a sound journal lie exactly the commands of the revisions after the one and up to the other. */
  lemma ReplayedByRevision(sha: Hasher, limits: Limits, j: JournalState, low: U64, high: U64)
    requires Sound(sha, limits, j) && j.initialized && j.initialRevision <= low <= high <= j.currentRevision
    ensures InRange(j, low, high) && j.currentRevision - j.initialRevision == |j.transactions|
    ensures CommandsOf(Between(j, low, high)) == After(CommandsOf(j.transactions), low, high)
  {
    hide After, CommandsOf, AllStored, Linked;
    var n := |j.transactions|;
    assert j.transactions[..n] == j.transactions;
    var from, to := low - j.initialRevision, high - j.initialRevision;
    FirstTransactions(sha, limits, j, from, to, n);
    assert n <= from ==> j.transactions[from..to] == [];
  }

  // ---- Pages as sinks ----

  lemma {:induction false} ReplayInParts(ar: SampleEdits.Arithmetic, st: PageEdits.PageState, a: seq<EditCommand>, b: seq<EditCommand>)
    ensures
      var first := PageEdits.Replay(ar, st, a);
      PageEdits.Replay(ar, st, a + b) == if first.status == PageEdits.Ok then PageEdits.Replay(ar, first.state, b) else first
    decreases |a|
  {
    hide PageEdits.ApplyCommand;
    if |a| == 0 {
      assert a + b == b;
    } else {
      assert (a + b)[1..] == a[1..] + b;
      ReplayInParts(ar, PageEdits.ApplyCommand(ar, st, a[0]).state, a[1..], b);
    }
  }

  /** Commands of one revision that continue where the page stands: either some sample turns non-finite or all apply. */
  lemma {:induction false} PageFollowsCommands(ar: SampleEdits.Arithmetic, st: PageEdits.PageState, commands: seq<EditCommand>,
                                               index: nat, revision: U64)
    requires Sequenced(commands, index, revision) && index + |commands| < U32_COUNT
    requires if index == 0 then st.revision + 1 == revision else st.revision == revision && st.nextSequence == index
    ensures
      var r := PageEdits.Replay(ar, st, commands);
      && (r.status == PageEdits.Ok || r.status == PageEdits.NonFiniteResult)
      && (r.status == PageEdits.Ok ==> r.state.revision == (if index + |commands| == 0 then st.revision else revision))
    decreases |commands|
  {
    hide ValidCommand, PageEdits.PageEdit.Values, SampleEdits.MayIntersectPage, PageEdits.Hull;
    if |commands| > 0 {
      assert commands[0].sequence == index && commands[0].worldRevision == revision && ValidCommand(commands[0]);
      PageFollowsOne(ar, st, commands[0]);
      var step := PageEdits.ApplyCommand(ar, st, commands[0]);
      if step.status == PageEdits.Ok {
        PageFollowsCommands(ar, step.state, commands[1..], index + 1, revision);
      }
    }
  }

  lemma PageFollowsOne(ar: SampleEdits.Arithmetic, st: PageEdits.PageState, c: EditCommand)
    requires ValidCommand(c) && c.sequence + 1 < U32_COUNT
    requires if c.sequence == 0 then st.revision + 1 == c.worldRevision
             else st.revision == c.worldRevision && st.nextSequence == c.sequence
    ensures
      var step := PageEdits.ApplyCommand(ar, st, c);
      && (step.status == PageEdits.Ok || step.status == PageEdits.NonFiniteResult)
      && (step.status == PageEdits.Ok ==>
            step.state.revision == c.worldRevision && step.state.nextSequence == c.sequence + 1)
  {
    hide ValidCommand, PageEdits.PageEdit.Values, SampleEdits.MayIntersectPage, PageEdits.Hull;
  }

  /** A stored transaction's commands are valid, in sequence, and at the revision it commits. */
  lemma StoredCommandsAreSequenced(sha: Hasher, t: EditTransaction, s: seq<Byte>)
    requires SegmentOf(sha, t, s)
    ensures Sequenced(t.commands, 0, t.committedRevision) && 0 < |t.commands| <= MAXIMUM_COMMAND_COUNT
  {
    hide ValidCommand, WriteTransaction, OpenTransaction;
    OpenedIsCanonical(sha, s);
  }

  /** A page brought to any revision of a sound journal follows it: replaying on never fails for a revision or a sequence,
      only for a non-finite sample, and otherwise ends exactly at the revision asked for. */
  lemma {:induction false} PageFollowsJournal(ar: SampleEdits.Arithmetic, sha: Hasher, limits: Limits, j: JournalState,
                                              st: PageEdits.PageState, low: U64, high: U64)
    requires Sound(sha, limits, j) && j.initialized && InRange(j, low, high) && st.revision == low
    ensures
      var r := PageEdits.Replay(ar, st, CommandsOf(Between(j, low, high)));
      && (r.status == PageEdits.Ok || r.status == PageEdits.NonFiniteResult)
      && (r.status == PageEdits.Ok ==> r.state.revision == high)
    decreases high - low
  {
    hide SegmentOf, PageEdits.Replay, ValidCommand, CommandsOf, Between;
    if low < high {
      var earlier, n := Between(j, low, high - 1), high - 1 - j.initialRevision;
      var t := j.transactions[n];
      PageFollowsJournal(ar, sha, limits, j, st, low, high - 1);
      assert LinkedAt(j.sourceRevision, j.initialRevision, j.transactions, n);
      assert SegmentOf(sha, t, j.segments[n]);
      StoredCommandsAreSequenced(sha, t, j.segments[n]);
      LastBetween(j, low, high);
      CommandsEndWith(Between(j, low, high));
      ReplayInParts(ar, st, CommandsOf(earlier), t.commands);
      var first := PageEdits.Replay(ar, st, CommandsOf(earlier));
      if first.status == PageEdits.Ok {
        PageFollowsCommands(ar, first.state, t.commands, 0, high);
      }
    } else {
      NothingToReplay(ar, st, j, low);
    }
  }

  lemma LastBetween(j: JournalState, low: U64, high: U64)
    requires InRange(j, low, high) && low < high && j.currentRevision - j.initialRevision <= |j.transactions|
    ensures
      var ts := Between(j, low, high);
      |ts| == high - low && ts[..high - low - 1] == Between(j, low, high - 1)
      && ts[high - low - 1] == j.transactions[high - 1 - j.initialRevision]
  {}

  lemma NothingToReplay(ar: SampleEdits.Arithmetic, st: PageEdits.PageState, j: JournalState, low: U64)
    requires InRange(j, low, low) && j.currentRevision - j.initialRevision <= |j.transactions|
    ensures PageEdits.Replay(ar, st, CommandsOf(Between(j, low, low))) == PageEdits.Replayed(st, PageEdits.Ok)
  {
    assert Between(j, low, low) == [];
  }

  /** A page as a sink: it accepts a command exactly while its replay stays Ok. */
  function PageSink(ar: SampleEdits.Arithmetic, st: PageEdits.PageState): Acceptance {
    (offered, c) => PageEdits.Replay(ar, st, offered + [c]).status == PageEdits.Ok
  }

  lemma {:induction false} FeedingAPageReplaysIt(ar: SampleEdits.Arithmetic, st: PageEdits.PageState, done: seq<EditCommand>,
                                                 commands: seq<EditCommand>)
    requires PageEdits.Replay(ar, st, done).status == PageEdits.Ok
    ensures Feed(PageSink(ar, st), done, commands).ok <==> PageEdits.Replay(ar, st, done + commands).status == PageEdits.Ok
    ensures Feed(PageSink(ar, st), done, commands).ok ==> Feed(PageSink(ar, st), done, commands).offered == done + commands
    decreases |commands|
  {
    hide PageEdits.Replay;
    if |commands| == 0 {
      assert done + commands == done;
    } else {
      assert done + [commands[0]] + commands[1..] == done + commands;
      ReplayInParts(ar, st, done + [commands[0]], commands[1..]);
      if PageEdits.Replay(ar, st, done + [commands[0]]).status == PageEdits.Ok {
        FeedingAPageReplaysIt(ar, st, done + [commands[0]], commands[1..]);
      }
    }
  }

  // ---- Authored journals ----

  /** Every transaction carries the identities derived from its place. */
  ghost predicate Authored(j: JournalState) {
    forall i :: 0 <= i < |j.transactions| ==> CarriesDerivedIds(j.transactions[i])
  }

  ghost predicate CarriesDerivedIds(t: EditTransaction) {
    && t.id == Rebase.TransactionId(t.sourceRevision, t.committedRevision)
    && |t.commands| <= MAXIMUM_COMMAND_COUNT
    && forall k :: 0 <= k < |t.commands| ==> t.commands[k].id == Rebase.CommandId(t.committedRevision, k)
  }

  lemma RebasedCarriesDerivedIds(t: EditTransaction, base: U64)
    requires Rebase.Rebasable(t, base)
    ensures CarriesDerivedIds(Rebase.Rebased(t, base))
  {
    hide Rebase.TransactionId, Rebase.CommandId;
  }

  /** Derived identities of different revisions never meet. */
  lemma DerivedIdsAreFresh(t: EditTransaction, u: EditTransaction)
    requires CarriesDerivedIds(t) && CarriesDerivedIds(u) && t.committedRevision != u.committedRevision
    ensures t.id != u.id && IdsOf(t.commands) !! IdsOf(u.commands)
  {
    Rebase.TransactionIdsAreExact(t.sourceRevision, t.committedRevision, u.sourceRevision, u.committedRevision);
    hide Rebase.TransactionId, Rebase.CommandId;
    if c :| c in IdsOf(t.commands) && c in IdsOf(u.commands) {
      var k :| 0 <= k < |t.commands| && t.commands[k].id == c;
      var l :| 0 <= l < |u.commands| && u.commands[l].id == c;
      Rebase.CommandIdsAreExact(t.committedRevision, k, u.committedRevision, l);
    }
  }

  lemma NextIdsAreFresh(limits: Limits, j: JournalState, u: EditTransaction)
    requires Chained(limits, j) && j.initialized && Authored(j)
    requires CarriesDerivedIds(u) && u.committedRevision == j.currentRevision + 1
    ensures u.id !in j.transactionIds && IdsOf(u.commands) !! j.commandIds
  {
    hide CarriesDerivedIds;
    forall v | v in j.transactions ensures u.id != v.id && IdsOf(u.commands) !! IdsOf(v.commands) {
      var i :| 0 <= i < |j.transactions| && j.transactions[i] == v;
      assert LinkedAt(j.sourceRevision, j.initialRevision, j.transactions, i);
      DerivedIdsAreFresh(u, v);
    }
  }

  lemma AuthoredGrows(j: JournalState, u: EditTransaction, segment: seq<Byte>)
    requires Authored(j) && CarriesDerivedIds(u)
    ensures Authored(Commit(j, u, segment))
  {
    hide CarriesDerivedIds;
  }

  lemma FreshNeverCollides(limits: Limits, j: JournalState, u: EditTransaction, size: nat)
    requires Chained(limits, j) && j.initialized && Authored(j) && CarriesDerivedIds(u)
    requires j.currentRevision != U64_MAX && u.baseRevision == j.currentRevision && u.committedRevision == j.currentRevision + 1
    ensures ValidateAppend(limits, j, u, size) !in {WorldRevisionMismatch, DuplicateTransaction, DuplicateCommand}
    ensures ValidateAppend(limits, j, u, size) == SourceRevisionMismatch <==> u.sourceRevision != j.sourceRevision
  {
    NextIdsAreFresh(limits, j, u);
    hide CarriesDerivedIds, Chained, Authored, IdsOf;
  }

  lemma StoringKeepsDerivedIds(t: EditTransaction, base: U64)
    requires Rebase.Rebasable(t, base)
    ensures
      var s := StoredTransaction(Rebase.Rebased(t, base));
      && CarriesDerivedIds(s) && s.sourceRevision == t.sourceRevision && s.baseRevision == base
      && s.committedRevision == base + 1
  {
    var r := Rebase.Rebased(t, base);
    RebasedCarriesDerivedIds(t, base);
    RebasedIsSorted(t, base);
    hide Rebase.TransactionId, Rebase.CommandId, SortBySequence, ValidCommand, Rebase.Rebasable;
  }

  lemma RebasedIsSorted(t: EditTransaction, base: U64)
    requires Rebase.Rebasable(t, base)
    ensures SortBySequence(Rebase.Rebased(t, base).commands) == Rebase.Rebased(t, base).commands
  {
    var commands := Rebase.Rebased(t, base).commands;
    Rebase.RebasedCommandsAreCanonical(t.commands, base + 1);
    hide Rebase.Rebased, Rebase.CommandId, SortBySequence, ValidCommand, OrderedBySequence;
    SortIsAPermutation(commands);
    StrictOrderIsUnique(commands, SortBySequence(commands));
  }

  /** Appending a transaction rebased onto the head of an authored journal is never refused for its revision or for an
      identity: only another source, a full journal or an unwritable transaction refuses it. The journal stays authored. */
  lemma RebasedNeverCollides(sha: Hasher, limits: Limits, j: JournalState, t: EditTransaction)
    requires Chained(limits, j) && j.initialized && Authored(j) && Rebase.Rebasable(t, j.currentRevision)
    ensures
      var c := Append(sha, limits, j, Rebase.Rebased(t, j.currentRevision));
      && Authored(c.state)
      && c.status !in {WorldRevisionMismatch, DuplicateTransaction, DuplicateCommand}
      && (c.status == SourceRevisionMismatch ==> t.sourceRevision != j.sourceRevision)
  {
    var u := Rebase.Rebased(t, j.currentRevision);
    AppendAddsTheStoredForm(sha, limits, j, u);
    StoringKeepsDerivedIds(t, j.currentRevision);
    hide Append, WriteTransaction, StoredTransaction, CarriesDerivedIds, Rebase.Rebased, Chained, ValidateAppend, Commit,
         Authored;
    var written := WriteTransaction(sha, u);
    if written.Success? {
      FreshNeverCollides(limits, j, StoredTransaction(u), |written.value|);
      AuthoredGrows(j, StoredTransaction(u), written.value);
    }
  }
}
