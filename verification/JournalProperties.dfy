/** What every journal keeps: the chain of revisions, one stored form per transaction, and recovery from any cut. */
module JournalProperties {
  import opened Numbers
  import opened EditTransactions
  import opened Bytes
  import opened Containers
  import opened TransactionFiles
  import opened TransactionRoundTrip
  import opened Journals

  // ---- Segments ----

  lemma SegmentMeasures(sha: Hasher, t: EditTransaction, s: seq<Byte>, following: seq<Byte>)
    requires SegmentOf(sha, t, s)
    ensures |s| == FRAME_SIZE + RecordSizes(SortBySequence(t.commands))
    ensures MeasureContainer(s + following, EDIT_MAGIC) == Success(|s|)
  {
    WrittenForm(sha, t);
    ContainerSurvives(sha, EDIT_MAGIC, 0, t.sourceRevision, SectionsOf(sha, Ordered(t)));
    ContainerMeasures(sha, EDIT_MAGIC, 0, t.sourceRevision, SectionsOf(sha, Ordered(t)), following);
  }

  lemma CutSegmentIsTruncated(sha: Hasher, t: EditTransaction, s: seq<Byte>, cut: nat)
    requires SegmentOf(sha, t, s) && cut < |s|
    ensures MeasureContainer(s[..cut], EDIT_MAGIC) == Failure(Truncated)
  {
    WrittenForm(sha, t);
    ContainerSurvives(sha, EDIT_MAGIC, 0, t.sourceRevision, SectionsOf(sha, Ordered(t)));
    PrefixIsTruncated(sha, EDIT_MAGIC, 0, t.sourceRevision, SectionsOf(sha, Ordered(t)), cut);
  }

  lemma ReopenedIsStored(sha: Hasher, bytes: seq<Byte>, t: EditTransaction)
    ensures Reopened(sha, bytes) == Some(t) <==> SegmentOf(sha, t, bytes)
  {
    hide WriteTransaction, OpenTransaction;
  }

  // ---- Prefixes of the chain ----

  lemma IdsGrow(ts: seq<EditTransaction>, t: EditTransaction)
    ensures TransactionIds(ts + [t]) == TransactionIds(ts) + {t.id}
    ensures CommandIds(ts + [t]) == CommandIds(ts) + IdsOf(t.commands)
  {
    forall v | v in CommandIds(ts) + IdsOf(t.commands) ensures v in CommandIds(ts + [t]) {
      if v in CommandIds(ts) {
        var u, c :| u in ts && c in u.commands && c.id == v;
        assert u in ts + [t];
      } else {
        assert t in ts + [t];
      }
    }
    forall v | v in TransactionIds(ts) + {t.id} ensures v in TransactionIds(ts + [t]) {
      assert t in ts + [t];
      if v in TransactionIds(ts) {
        var u :| u in ts && u.id == v;
        assert u in ts + [t];
      }
    }
  }

  lemma StateGrows(source: U64, initial: U64, ts: seq<EditTransaction>, segments: seq<seq<Byte>>, t: EditTransaction,
                   s: seq<Byte>)
    requires initial + |ts| < U64_MAX && t.committedRevision == initial + |ts| + 1
    ensures Commit(StateOf(source, initial, ts, segments), t, s) == StateOf(source, initial, ts + [t], segments + [s])
    ensures Concat(segments + [s]) == Concat(segments) + s
  {
    IdsGrow(ts, t);
    assert (ts + [t])[..|ts|] == ts && (segments + [s])[..|segments|] == segments;
    hide TransactionIds, CommandIds, IdsOf;
  }

  lemma LinksOfPrefix(source: U64, initial: U64, ts: seq<EditTransaction>, n: nat, i: nat)
    requires i < n <= |ts|
    ensures LinkedAt(source, initial, ts[..n], i) <==> LinkedAt(source, initial, ts, i)
  {
    assert ts[..n][..i] == ts[..i];
  }

  lemma PrefixIsLinked(source: U64, initial: U64, ts: seq<EditTransaction>, n: nat)
    requires n <= |ts| && Linked(source, initial, ts)
    ensures Linked(source, initial, ts[..n])
  {
    forall i | 0 <= i < n ensures LinkedAt(source, initial, ts[..n], i) {
      LinksOfPrefix(source, initial, ts, n, i);
    }
  }

  lemma {:induction false} PrefixIsSmaller(ts: seq<EditTransaction>, segments: seq<seq<Byte>>, n: nat)
    requires n <= |ts| == |segments|
    ensures CommandTotal(ts[..n]) <= CommandTotal(ts) && |Concat(segments[..n])| <= |Concat(segments)|
    ensures Concat(segments)[..|Concat(segments[..n])|] == Concat(segments[..n])
    decreases |ts|
  {
    if n < |ts| {
      var m := |ts| - 1;
      PrefixIsSmaller(ts[..m], segments[..m], n);
      assert ts[..m][..n] == ts[..n] && segments[..m][..n] == segments[..n];
      assert Concat(segments) == Concat(segments[..m]) + segments[m];
    } else {
      assert ts[..n] == ts && segments[..n] == segments;
    }
  }

  /** The journal as it was after its first n transactions. */
  function After(j: JournalState, n: nat): JournalState
    requires n <= |j.transactions| && j.initialRevision + |j.transactions| <= U64_MAX && n <= |j.segments|
  {
    StateOf(j.sourceRevision, j.initialRevision, j.transactions[..n], j.segments[..n])
  }

  lemma EarlierIsSound(sha: Hasher, limits: Limits, j: JournalState, n: nat)
    requires Sound(sha, limits, j) && j.initialized && n <= |j.transactions|
    ensures Sound(sha, limits, After(j, n))
    ensures n == |j.transactions| ==> After(j, n) == j
  {
    hide SegmentOf, LinkedAt, TransactionIds, CommandIds, IdsOf;
    PrefixIsLinked(j.sourceRevision, j.initialRevision, j.transactions, n);
    PrefixIsSmaller(j.transactions, j.segments, n);
    if n == |j.transactions| {
      assert j.transactions[..n] == j.transactions && j.segments[..n] == j.segments;
    }
  }

  lemma TotalsGrow(ts: seq<EditTransaction>, segments: seq<seq<Byte>>, i: nat)
    requires i < |ts| == |segments|
    ensures CommandTotal(ts[..i + 1]) == CommandTotal(ts[..i]) + |ts[i].commands|
    ensures Concat(segments[..i + 1]) == Concat(segments[..i]) + segments[i]
  {
    assert ts[..i + 1][..i] == ts[..i] && segments[..i + 1][..i] == segments[..i];
  }

  /** Each transaction of a sound journal is accepted, in its place, by the journal before it. */
  lemma NextIsAccepted(limits: Limits, j: JournalState, i: nat)
    requires Chained(limits, j) && j.initialized && i < |j.transactions|
    ensures ValidateAppend(limits, After(j, i), j.transactions[i], |j.segments[i]|) == Ok
    ensures Commit(After(j, i), j.transactions[i], j.segments[i]) == After(j, i + 1)
  {
    hide TransactionIds, CommandIds, IdsOf, CommandTotal, Concat;
    var ts, ss := j.transactions, j.segments;
    assert LinkedAt(j.sourceRevision, j.initialRevision, ts, i);
    TotalsGrow(ts, ss, i);
    PrefixIsSmaller(ts, ss, i + 1);
    assert ts[..i + 1] == ts[..i] + [ts[i]] && ss[..i + 1] == ss[..i] + [ss[i]];
    StateGrows(j.sourceRevision, j.initialRevision, ts[..i], ss[..i], ts[i], ss[i]);
  }

  lemma LinkedGrows(source: U64, initial: U64, ts: seq<EditTransaction>, t: EditTransaction)
    requires Linked(source, initial, ts) && LinkedAt(source, initial, ts + [t], |ts|)
    ensures Linked(source, initial, ts + [t])
  {
    hide LinkedAt;
    assert (ts + [t])[..|ts|] == ts;
    forall i | 0 <= i < |ts| ensures LinkedAt(source, initial, ts + [t], i) {
      LinksOfPrefix(source, initial, ts + [t], |ts|, i);
    }
  }

  /** Committing what passed validation keeps the journal sound. */
  lemma CommitKeepsSound(sha: Hasher, limits: Limits, j: JournalState, t: EditTransaction, s: seq<Byte>)
    requires Sound(sha, limits, j) && SegmentOf(sha, t, s) && ValidateAppend(limits, j, t, |s|) == Ok
    ensures Sound(sha, limits, Commit(j, t, s))
    ensures Concat(Commit(j, t, s).segments) == Concat(j.segments) + s
  {
    hide SegmentOf, TransactionIds, CommandIds, IdsOf, CommandTotal, Concat, Linked;
    StateGrows(j.sourceRevision, j.initialRevision, j.transactions, j.segments, t, s);
    assert (j.transactions + [t])[..|j.transactions|] == j.transactions;
    LinkedGrows(j.sourceRevision, j.initialRevision, j.transactions, t);
  }

  // ---- Every operation keeps the journal sound ----

  /** Committing bytes either keeps the journal as it was, with an error, or adds exactly their transaction. */
  lemma CommitAppendKeepsSound(sha: Hasher, limits: Limits, j: JournalState, segment: seq<Byte>)
    requires Sound(sha, limits, j)
    ensures
      var c := CommitAppend(sha, limits, j, segment);
      && Sound(sha, limits, c.state)
      && (c.status != Ok ==> c.state == j)
      && (c.status == Ok ==> Concat(c.state.segments) == Concat(j.segments) + segment
                             && c.state.currentRevision == j.currentRevision + 1)
  {
    hide Sound, MeasureContainer, WriteTransaction, OpenTransaction, Concat;
    var t := Reopened(sha, segment);
    if t.Some? && ValidateAppend(limits, j, t.value, |segment|) == Ok {
      ReopenedIsStored(sha, segment, t.value);
      CommitKeepsSound(sha, limits, j, t.value, segment);
    }
  }

  /** What preparing accepts, committing accepts too: appending succeeds exactly when the transaction can be written and its
      stored form passes validation, and then adds that form with the written bytes. */
  lemma AppendAddsTheStoredForm(sha: Hasher, limits: Limits, j: JournalState, t: EditTransaction)
    ensures
      Append(sha, limits, j, t) ==
        match WriteTransaction(sha, t)
        case Failure(_) => Committed(j, TransactionFailure)
        case Success(s) =>
          var status := ValidateAppend(limits, j, StoredTransaction(t), |s|);
          if status != Ok then Committed(j, status) else Committed(Commit(j, StoredTransaction(t), s), Ok)
  {
    hide Writable, WriteTransaction, OpenTransaction, MeasureContainer, SortBySequence, StoredTransaction, RecordSizes,
         Storable, Layout, TotalSize, SectionsOf, ValidateAppend, Commit;
    WrittenForm(sha, t);
    if WriteTransaction(sha, t).Success? {
      var s := WriteTransaction(sha, t).value;
      TransactionSurvives(sha, t);
      StoredRewritesIdentically(sha, t);
      SegmentMeasures(sha, StoredTransaction(t), s, []);
      assert s + [] == s;
    }
  }

  // ---- Recovery ----

  /** How many whole segments fit in the first `cut` bytes. */
  function WholeSegments(segments: seq<seq<Byte>>, cut: nat): (n: nat)
    ensures n <= |segments| && |Concat(segments[..n])| <= cut
    ensures n < |segments| ==> cut < |Concat(segments[..n + 1])|
  {
    if |segments| == 0 || |Concat(segments)| <= cut then
      assert segments[..|segments|] == segments;
      |segments|
    else
      var m := |segments| - 1;
      var n := WholeSegments(segments[..m], cut);
      assert segments[..m][..n] == segments[..n];
      assert n < m ==> segments[..m][..n + 1] == segments[..n + 1];
      assert n == m ==> segments[..n + 1] == segments;
      n
  }

  /** Where segment i lies in the saved bytes. */
  lemma SegmentInPlace(ts: seq<EditTransaction>, segments: seq<seq<Byte>>, i: nat)
    requires i < |ts| == |segments|
    ensures
      var low, high := |Concat(segments[..i])|, |Concat(segments[..i + 1])|;
      low + |segments[i]| == high <= |Concat(segments)| && Concat(segments)[low..high] == segments[i]
  {
    PrefixIsSmaller(ts, segments, i + 1);
    assert segments[..i + 1][..i] == segments[..i];
    assert Concat(segments[..i + 1]) == Concat(segments[..i]) + segments[i];
  }

  /** The outcome recovery promises for the first `cut` bytes of a saved journal. */
  ghost function LongestPrefix(j: JournalState, cut: nat, recover: bool): Loaded
    requires j.initialRevision + |j.transactions| <= U64_MAX && |j.transactions| == |j.segments|
  {
    var n := WholeSegments(j.segments, cut);
    var whole := |Concat(j.segments[..n])|;
    if whole == cut then Loaded(Ok, cut, Some(After(j, n)))
    else if recover then Loaded(RecoveredTruncatedTail, whole, Some(After(j, n)))
    else Loaded(CorruptJournal, 0, None)
  }

  lemma PrefixesGrow(ts: seq<EditTransaction>, segments: seq<seq<Byte>>, a: nat, b: nat)
    requires a <= b <= |ts| == |segments|
    ensures |Concat(segments[..a])| <= |Concat(segments[..b])|
  {
    PrefixIsSmaller(ts[..b], segments[..b], a);
    assert segments[..b][..a] == segments[..a];
  }

  lemma WholeSegmentsIs(ts: seq<EditTransaction>, segments: seq<seq<Byte>>, cut: nat, i: nat)
    requires i <= |ts| == |segments| && |Concat(segments[..i])| <= cut
    requires i < |segments| ==> cut < |Concat(segments[..i + 1])|
    ensures WholeSegments(segments, cut) == i
  {
    var n := WholeSegments(segments, cut);
    if n < i {
      PrefixesGrow(ts, segments, n + 1, i);
    } else if i < n {
      PrefixesGrow(ts, segments, i + 1, n);
    }
  }

  lemma CutInsideSlice(all: seq<Byte>, low: nat, high: nat, cut: nat)
    requires low <= cut <= high <= |all|
    ensures all[..cut][low..] == all[low..high][..cut - low]
  {}

  lemma WholeSliceThenRest(all: seq<Byte>, low: nat, high: nat, cut: nat)
    requires low <= high <= cut <= |all|
    ensures all[..cut][low..] == all[low..high] + all[high..cut]
    ensures all[..cut][low..high] == all[low..high]
  {}

  lemma {:induction false} LoadContinues(sha: Hasher, limits: Limits, j: JournalState, cut: nat, i: nat, recover: bool)
    requires Sound(sha, limits, j) && j.initialized && cut <= |Concat(j.segments)|
    requires i <= |j.transactions| && |Concat(j.segments[..i])| <= cut
    ensures LoadFrom(sha, limits, After(j, i), Concat(j.segments)[..cut], |Concat(j.segments[..i])|, recover)
         == LongestPrefix(j, cut, recover)
    decreases |j.transactions| - i
  {
    hide ValidateAppend, Commit, MeasureContainer, WriteTransaction, OpenTransaction, Concat, WholeSegments, LinkedAt,
         StateOf;
    var all, low := Concat(j.segments), |Concat(j.segments[..i])|;
    if i == |j.transactions| {
      assert j.segments[..i] == j.segments;
      WholeSegmentsIs(j.transactions, j.segments, cut, i);
    } else {
      SegmentInPlace(j.transactions, j.segments, i);
      var t, s, high := j.transactions[i], j.segments[i], |Concat(j.segments[..i + 1])|;
      assert SegmentOf(sha, t, s);
      if high <= cut {
        WholeSliceThenRest(all, low, high, cut);
        SegmentMeasures(sha, t, s, all[high..cut]);
        ReopenedIsStored(sha, s, t);
        NextIsAccepted(limits, j, i);
        LoadContinues(sha, limits, j, cut, i + 1, recover);
      } else {
        WholeSegmentsIs(j.transactions, j.segments, cut, i);
        if low < cut {
          CutInsideSlice(all, low, high, cut);
          CutSegmentIsTruncated(sha, t, s, cut - low);
        }
      }
    }
  }

  lemma NothingYet(j: JournalState)
    requires j.initialRevision + |j.transactions| <= U64_MAX
    ensures After(j, 0) == Reset(j.sourceRevision, j.initialRevision) && Concat(j.segments[..0]) == []
  {
    assert j.transactions[..0] == [] && j.segments[..0] == [];
    assert TransactionIds([]) == {} && CommandIds([]) == {};
  }

  /** Any cut of a saved journal, read with recovery, gives back exactly its longest run of whole transactions and their
      length; a cut between transactions is no damage; without recovery any other cut is refused. */
  lemma CutLoadsLongestPrefix(sha: Hasher, limits: Limits, j: JournalState, cut: nat, recover: bool)
    requires Sound(sha, limits, j) && j.initialized && cut <= |Concat(j.segments)|
    ensures Load(sha, limits, Concat(j.segments)[..cut], j.sourceRevision, j.initialRevision, recover)
         == LongestPrefix(j, cut, recover)
  {
    NothingYet(j);
    hide LoadFrom, LongestPrefix, After, Concat, SegmentOf, LinkedAt, Linked, StateOf, Reset;
    LoadContinues(sha, limits, j, cut, 0, recover);
  }

  /** Loading what was saved is the identity on the journal. */
  lemma SavedJournalLoads(sha: Hasher, limits: Limits, j: JournalState, recover: bool)
    requires Sound(sha, limits, j) && j.initialized
    ensures Load(sha, limits, Concat(j.segments), j.sourceRevision, j.initialRevision, recover)
         == Loaded(Ok, |Concat(j.segments)|, Some(j))
  {
    var all := Concat(j.segments);
    assert all[..|all|] == all;
    CutLoadsLongestPrefix(sha, limits, j, |all|, recover);
    assert j.segments[..|j.segments|] == j.segments;
    WholeSegmentsIs(j.transactions, j.segments, |all|, |j.segments|);
    EarlierIsSound(sha, limits, j, |j.transactions|);
    hide Load, Concat, Sound, WholeSegments, After;
  }

  lemma {:induction false} LoadedIsSound(sha: Hasher, limits: Limits, j: JournalState, bytes: seq<Byte>, offset: nat,
                                         recover: bool)
    requires offset <= |bytes| && Sound(sha, limits, j) && j.initialized && Concat(j.segments) == bytes[..offset]
    ensures
      var r := LoadFrom(sha, limits, j, bytes, offset, recover);
      && (r.state.Some? <==> r.status == Ok || r.status == RecoveredTruncatedTail)
      && r.committedBytes <= |bytes|
      && (r.state.Some? ==>
            && Sound(sha, limits, r.state.value) && r.state.value.initialized
            && r.state.value.sourceRevision == j.sourceRevision && r.state.value.initialRevision == j.initialRevision
            && Concat(r.state.value.segments) == bytes[..r.committedBytes])
      && (r.status == Ok ==> r.committedBytes == |bytes|)
      && (r.status == RecoveredTruncatedTail ==>
            recover && MeasureContainer(bytes[r.committedBytes..], EDIT_MAGIC) == Failure(Truncated))
    decreases |bytes| - offset
  {
    hide MeasureContainer, WriteTransaction, OpenTransaction, Concat, Sound;
    if offset < |bytes| {
      var size := MeasureContainer(bytes[offset..], EDIT_MAGIC);
      if size.Success? && 0 < size.value {
        var s := bytes[offset..offset + size.value];
        var t := Reopened(sha, s);
        if t.Some? && ValidateAppend(limits, j, t.value, |s|) == Ok {
          ReopenedIsStored(sha, s, t.value);
          CommitKeepsSound(sha, limits, j, t.value, s);
          assert bytes[..offset] + s == bytes[..offset + size.value];
          LoadedIsSound(sha, limits, Commit(j, t.value, s), bytes, offset + size.value, recover);
        }
      }
    }
  }

  /** Whatever the bytes: a load that succeeds or recovers holds a sound journal that saves to exactly the bytes it reports
      as committed, which is all of them unless the rest is an incomplete container. */
  lemma LoadAccountsForEveryByte(sha: Hasher, limits: Limits, bytes: seq<Byte>, source: U64, initial: U64, recover: bool)
    ensures
      var r := Load(sha, limits, bytes, source, initial, recover);
      && (r.state.Some? <==> r.status == Ok || r.status == RecoveredTruncatedTail)
      && r.committedBytes <= |bytes|
      && (r.state.Some? ==>
            && Sound(sha, limits, r.state.value) && r.state.value.initialized
            && r.state.value.sourceRevision == source && r.state.value.initialRevision == initial
            && Concat(r.state.value.segments) == bytes[..r.committedBytes])
      && (r.status == Ok ==> r.committedBytes == |bytes|)
      && (r.status == RecoveredTruncatedTail ==>
            recover && MeasureContainer(bytes[r.committedBytes..], EDIT_MAGIC) == Failure(Truncated))
  {
    hide MeasureContainer, LoadFrom;
    var j := Reset(source, initial);
    assert bytes[..0] == [];
    assert TransactionIds([]) == {} && CommandIds([]) == {};
    assert Sound(sha, limits, j);
    hide Sound, Reset;
    LoadedIsSound(sha, limits, j, bytes, 0, recover);
  }

  // ---- Refusals ----

  /** A transaction is accepted exactly when it continues the journal, fits the capacities and brings no identity twice; a
      reason given for refusing it is true. */
  lemma RefusalsHaveTheirReason(limits: Limits, j: JournalState, t: EditTransaction, size: nat)
    ensures
      var continues := t.baseRevision == j.currentRevision && t.committedRevision == j.currentRevision + 1
                       && j.currentRevision < U64_MAX;
      var status := ValidateAppend(limits, j, t, size);
      && (status == Ok
          <==> && j.initialized && t.sourceRevision == j.sourceRevision && continues
               && |j.transactions| + 1 <= limits.transactions && j.commandCount + |t.commands| <= limits.commands
               && j.byteSize + size <= limits.bytes && t.id !in j.transactionIds
               && forall c :: c in t.commands ==> c.id !in j.commandIds)
      && (status == NotInitialized ==> !j.initialized)
      && (status == SourceRevisionMismatch ==> t.sourceRevision != j.sourceRevision)
      && (status == WorldRevisionMismatch ==> !continues)
      && (status == TransactionCapacityExceeded ==> |j.transactions| + 1 > limits.transactions)
      && (status == CommandCapacityExceeded ==> j.commandCount + |t.commands| > limits.commands)
      && (status == ByteCapacityExceeded ==> j.byteSize + size > limits.bytes)
      && (status == DuplicateTransaction ==> t.id in j.transactionIds)
      && (status == DuplicateCommand ==> exists c :: c in t.commands && c.id in j.commandIds)
      && status !in {RecoveredTruncatedTail, TransactionFailure, CorruptJournal, ReplayFailure}
  {
    if v :| v in IdsOf(t.commands) && v in j.commandIds {
      var c :| c in t.commands && c.id == v;
    }
    forall c | c in t.commands ensures c.id in IdsOf(t.commands) {}
  }

  /** A load that neither succeeds nor recovers reports no bytes and leaves no journal. */
  lemma {:induction false} RefusedLoadReportsNothing(sha: Hasher, limits: Limits, j: JournalState, bytes: seq<Byte>,
                                                     offset: nat, recover: bool)
    requires offset <= |bytes|
    ensures
      var l := LoadFrom(sha, limits, j, bytes, offset, recover);
      && (l.status in {Ok, RecoveredTruncatedTail} <==> l.state.Some?)
      && (l.state.None? ==> l.committedBytes == 0)
      && (l.status == RecoveredTruncatedTail ==> recover)
    decreases |bytes| - offset
  {
    hide MeasureContainer, Reopened, ValidateAppend, Commit;
    if offset < |bytes| {
      var size := MeasureContainer(bytes[offset..], EDIT_MAGIC);
      if size.Success? && 0 < size.value {
        var segment := bytes[offset..offset + size.value];
        var t := Reopened(sha, segment);
        if t.Some? { RefusalsHaveTheirReason(limits, j, t.value, |segment|); }
        if t.Some? && ValidateAppend(limits, j, t.value, |segment|) == Ok {
          RefusedLoadReportsNothing(sha, limits, Commit(j, t.value, segment), bytes, offset + size.value, recover);
        }
      }
    }
  }
}
