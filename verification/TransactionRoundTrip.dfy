/** Round trips of stored transactions: opening undoes writing, for every transaction writing accepts. */
module TransactionRoundTrip {
  import opened Numbers
  import opened EditCommands
  import opened EditTransactions
  import opened Bytes
  import opened Containers
  import opened TransactionCodec
  import opened TransactionFiles

  // ---- Header and commit records ----

  lemma HeaderRecordFits(t: EditTransaction)
    requires |t.commands| <= MAXIMUM_COMMAND_COUNT
    ensures FieldsFit(HeaderFieldsOf(t))
  {}

  lemma HeaderRecordShape(t: EditTransaction)
    ensures WidthsOf(HeaderFieldsOf(t)) == HEADER_RECORD_WIDTHS
    ensures ValuesOf(HeaderFieldsOf(t))
         == [SCHEMA_MAJOR, SCHEMA_MINOR, t.id, t.sourceRevision, t.baseRevision, t.committedRevision, t.author,
             |t.commands|, 0, 0]
  {}

  lemma RecordWidthsAre()
    ensures TotalWidth(HEADER_RECORD_WIDTHS) == HEADER_RECORD_SIZE
    ensures TotalWidth(COMMIT_WIDTHS) == COMMIT_SIZE && TotalWidth(COUNT_WIDTHS) == COMMAND_SECTION_HEADER_SIZE
  {
    assert TotalWidth([8, 4, 4, 32]) == 48;
    assert TotalWidth([8, 4, 4, 4]) == 20;
    assert TotalWidth([8, 8, 8, 8, 4, 4, 4]) == 44;
  }

  lemma HeaderRecordSurvives(t: EditTransaction)
    requires 0 < |t.commands| <= MAXIMUM_COMMAND_COUNT
    ensures |EncodeFields(HeaderFieldsOf(t))| == HEADER_RECORD_SIZE
    ensures DecodeHeader(EncodeFields(HeaderFieldsOf(t))) == Some(HeaderRead(t.(commands := []), |t.commands|))
  {
    hide EncodeFields, HeaderFieldsOf, DecodeFields, WidthsOf, ValuesOf, FieldsFit, TotalWidth;
    var fields := HeaderFieldsOf(t);
    HeaderRecordFits(t);
    HeaderRecordShape(t);
    EncodedSize(fields);
    RecordWidthsAre();
    FieldsSurvive(fields, []);
    assert EncodeFields(fields) + [] == EncodeFields(fields);
  }

  lemma CommitShape(sha: Hasher, t: EditTransaction, section: seq<Byte>)
    requires |t.commands| <= MAXIMUM_COMMAND_COUNT
    ensures FieldsFit(CommitFields(sha, t, section)) && WidthsOf(CommitFields(sha, t, section)) == COMMIT_WIDTHS
    ensures ValuesOf(CommitFields(sha, t, section))
         == [SCHEMA_MAJOR, SCHEMA_MINOR, t.id, t.committedRevision, |t.commands|, 0, sha(section)]
  {}

  lemma CommitSurvives(sha: Hasher, t: EditTransaction, stored: EditTransaction, section: seq<Byte>)
    requires |t.commands| <= MAXIMUM_COMMAND_COUNT
    requires stored.id == t.id && stored.committedRevision == t.committedRevision && |stored.commands| == |t.commands|
    ensures |EncodeFields(CommitFields(sha, t, section))| == COMMIT_SIZE
    ensures CommitMatches(sha, EncodeFields(CommitFields(sha, t, section)), stored, section)
  {
    var fields := CommitFields(sha, t, section);
    CommitShape(sha, t, section);
    EncodedSize(fields);
    RecordWidthsAre();
    FieldsSurvive(fields, []);
    hide EncodeFields, CommitFields, DecodeFields, WidthsOf, ValuesOf, FieldsFit, TotalWidth;
    assert EncodeFields(fields) + [] == EncodeFields(fields);
  }

  // ---- Command records ----

  lemma RecordStartsWithItsSize(sha: Hasher, c: EditCommand, tail: seq<Byte>)
    ensures DecodeFields([4], CommandBytes(sha, c) + tail).Some?
    ensures DecodeFields([4], CommandBytes(sha, c) + tail).value.values == [RecordSize(c.shape)]
  {
    hide CommandBytes, CommandContent, CommandFields, EncodeFields, LittleEndian;
    var rest := RecordBegins(sha, c, tail);
    DecodeFirst(4, RecordSize(c.shape), [], rest);
    assert [4] + [] == [4];
  }

  lemma RecordBegins(sha: Hasher, c: EditCommand, tail: seq<Byte>) returns (rest: seq<Byte>)
    ensures CommandBytes(sha, c) + tail == LittleEndian(4, RecordSize(c.shape)) + rest
  {
    hide LittleEndian, BoundsFields, TailFields, ShapeFields, EncodeFields;
    var fields := CommandFields(c);
    var body := EncodeFields(BoundsFields(c.bounds)) + (EncodeFields(TailFields(c)) + EncodeFields(ShapeFields(c)));
    var digest := LittleEndian(RECORD_HASH_SIZE, sha(CommandContent(c)));
    assert CommandContent(c) == EncodeFields(fields) + body;
    Associative(EncodeFields(fields) + body, digest, tail);
    Associative(EncodeFields(fields), body, digest + tail);
    FirstBytes(fields, body + (digest + tail));
    rest := EncodeFields(fields[1..]) + (body + (digest + tail));
  }

  /** Commands from place `index` on, all valid and at one revision. */
  ghost predicate Sequenced(commands: seq<EditCommand>, index: nat, revision: U64) {
    forall i :: 0 <= i < |commands| ==>
      ValidCommand(commands[i]) && commands[i].sequence == index + i && commands[i].worldRevision == revision
  }

  lemma OneRecordDecodes(sha: Hasher, c: EditCommand, rest: seq<Byte>, index: nat, count: nat, revision: Option<U64>)
    requires ValidCommand(c) && c.sequence == index < count
    requires revision.Some? ==> revision.value == c.worldRevision
    ensures
      var tail := DecodeRecords(sha, rest, index + 1, count, Some(c.worldRevision));
      DecodeRecords(sha, CommandBytes(sha, c) + rest, index, count, revision)
      == if tail.None? then None else Some([Stored(c)] + tail.value)
  {
    hide CommandBytes, DecodeCommand, ValidCommand, DecodeFields;
    var bytes := CommandBytes(sha, c) + rest;
    RecordStartsWithItsSize(sha, c, rest);
    CommandSurvives(sha, c);
    assert bytes[..RecordSize(c.shape)] == CommandBytes(sha, c) && bytes[RecordSize(c.shape)..] == rest;
  }

  lemma NoRecords(sha: Hasher, count: nat, seen: Option<U64>)
    ensures DecodeRecords(sha, [], count, count, seen) == Some([])
  {}

  lemma SequencedTail(commands: seq<EditCommand>, index: nat, revision: U64)
    requires |commands| > 0 && Sequenced(commands, index, revision)
    ensures ValidCommand(commands[0]) && commands[0].sequence == index && commands[0].worldRevision == revision
    ensures Sequenced(commands[1..], index + 1, revision)
  {
    hide ValidCommand;
  }

  lemma StoredSplit(commands: seq<EditCommand>)
    requires |commands| > 0
    ensures StoredCommands(commands) == [Stored(commands[0])] + StoredCommands(commands[1..])
  {
    hide Stored;
  }

  lemma {:induction false} RecordsSurvive(sha: Hasher, commands: seq<EditCommand>, index: nat, revision: U64, seen: Option<U64>)
    requires Sequenced(commands, index, revision) && (seen.Some? ==> seen.value == revision)
    ensures DecodeRecords(sha, Records(sha, commands), index, index + |commands|, seen) == Some(StoredCommands(commands))
    decreases |commands|
  {
    hide DecodeRecords, CommandBytes, ValidCommand, Sequenced, Stored, StoredCommands;
    if |commands| == 0 {
      NoRecords(sha, index, seen);
      NothingStored(commands);
    } else {
      SequencedTail(commands, index, revision);
      StoredSplit(commands);
      OneRecordDecodes(sha, commands[0], Records(sha, commands[1..]), index, index + |commands|, seen);
      RecordsSurvive(sha, commands[1..], index + 1, revision, Some(revision));
    }
  }

  lemma NothingStored(commands: seq<EditCommand>)
    requires |commands| == 0
    ensures StoredCommands(commands) == []
  {}

  lemma CountShape(count: nat)
    requires count <= MAXIMUM_COMMAND_COUNT
    ensures WidthsOf(CountFields(count)) == COUNT_WIDTHS
    ensures ValuesOf(CountFields(count)) == [SCHEMA_MAJOR, SCHEMA_MINOR, count] && FieldsFit(CountFields(count))
  {}

  lemma CountSurvives(count: nat, tail: seq<Byte>)
    requires count <= MAXIMUM_COMMAND_COUNT
    ensures |EncodeFields(CountFields(count))| == COMMAND_SECTION_HEADER_SIZE
    ensures DecodeFields(COUNT_WIDTHS, EncodeFields(CountFields(count)) + tail)
         == Some(Decoded([SCHEMA_MAJOR, SCHEMA_MINOR, count], tail))
  {
    var fields := CountFields(count);
    CountShape(count);
    EncodedSize(fields);
    RecordWidthsAre();
    hide CountFields, EncodeFields, DecodeFields, TotalWidth, WidthsOf, ValuesOf, FieldsFit;
    FieldsSurvive(fields, tail);
  }

  lemma CommandSectionSurvives(sha: Hasher, commands: seq<EditCommand>, revision: U64)
    requires |commands| <= MAXIMUM_COMMAND_COUNT && Sequenced(commands, 0, revision)
    ensures DecodeCommands(sha, CommandSection(sha, commands), |commands|) == Some(StoredCommands(commands))
  {
    hide Records, DecodeRecords, DecodeFields, EncodeFields, CountFields, Sequenced;
    CountSurvives(|commands|, Records(sha, commands));
    RecordsSurvive(sha, commands, 0, revision, None);
  }

  // ---- Sizes ----

  function RecordSizes(commands: seq<EditCommand>): nat {
    if |commands| == 0 then 0 else RecordSize(commands[0].shape) + RecordSizes(commands[1..])
  }

  lemma {:induction false} RecordsHaveTheirSizes(sha: Hasher, commands: seq<EditCommand>, index: nat, revision: U64)
    requires Sequenced(commands, index, revision)
    ensures |Records(sha, commands)| == RecordSizes(commands) <= 188 * |commands|
    decreases |commands|
  {
    hide CommandBytes, ValidCommand, Sequenced;
    if |commands| > 0 {
      SequencedTail(commands, index, revision);
      CommandSurvives(sha, commands[0]);
      RecordsHaveTheirSizes(sha, commands[1..], index + 1, revision);
    }
  }

  const FRAME_SIZE := 424

  /** Three sections of the written kinds, in their order and small enough to store. */
  lemma ThreeSectionsAreStorable(h: seq<Byte>, c: seq<Byte>, m: seq<Byte>)
    requires |h| == HEADER_RECORD_SIZE && |m| == COMMIT_SIZE && |c| <= 0x10_0000
    ensures
      var ss := [Section(HEADER_SECTION, 0, h), Section(COMMAND_SECTION, 0, c), Section(COMMIT_SECTION, 0, m)];
      && Storable(ss) && FirstProblem(ss, 0) == None && TotalSize(ss) == 416 + |c|
  {
    var ss := [Section(HEADER_SECTION, 0, h), Section(COMMAND_SECTION, 0, c), Section(COMMIT_SECTION, 0, m)];
    assert ss[1..] == [Section(COMMAND_SECTION, 0, c), Section(COMMIT_SECTION, 0, m)];
    assert ss[1..][1..] == [Section(COMMIT_SECTION, 0, m)];
    assert Payloads(ss[1..][1..]) == m + [];
    assert Payloads(ss[1..]) == c + Payloads(ss[1..][1..]);
    assert Payloads(ss) == h + Payloads(ss[1..]);
    assert InOrder(ss[1..][1..], COMMAND_SECTION);
    assert InOrder(ss[1..], HEADER_SECTION);
    assert FirstProblem(ss, 3) == None && FirstProblem(ss, 2) == None && FirstProblem(ss, 1) == None;
  }

  lemma SortThreeSections(h: Section, c: Section, m: Section)
    requires h.kind < c.kind < m.kind
    ensures SortByKind([h, c, m]) == [h, c, m]
  {
    assert [h, c, m][..2] == [h, c] && [h, c][..1] == [h] && [h][..0] == [];
    assert SortByKind([h]) == [h];
    assert InsertByKind(c, [h]) == [h] + InsertByKind(c, [h][1..]) == [h, c];
    assert SortByKind([h, c]) == [h, c];
    assert [h, c][1..] == [c];
    assert InsertByKind(m, [c]) == [c] + InsertByKind(m, [c][1..]) == [c, m];
    assert InsertByKind(m, [h, c]) == [h] + InsertByKind(m, [c]) == [h, c, m];
  }

  // ---- Whole transactions ----

  /** What writing accepts: a valid header and commands that are canonical once sorted. */
  ghost predicate Writable(t: EditTransaction) {
    ValidHeader(t) && Canonical(SortBySequence(t.commands), t.committedRevision)
  }

  ghost function Ordered(t: EditTransaction): EditTransaction {
    t.(commands := SortBySequence(t.commands))
  }

  lemma CanonicalIsSequenced(commands: seq<EditCommand>, revision: U64)
    requires Canonical(commands, revision)
    ensures Sequenced(commands, 0, revision)
  {
    hide ValidCommand;
  }

  lemma SectionSizes(sha: Hasher, t: EditTransaction)
    requires Writable(t)
    ensures |EncodeFields(HeaderFieldsOf(Ordered(t)))| == HEADER_RECORD_SIZE
    ensures |CommandSection(sha, Ordered(t).commands)| == 8 + RecordSizes(Ordered(t).commands) <= 0x10_0000
    ensures |EncodeFields(CommitFields(sha, Ordered(t), CommandSection(sha, Ordered(t).commands)))| == COMMIT_SIZE
  {
    hide EncodeFields, CountFields, HeaderFieldsOf, CommitFields, Records, ValidCommand, CommitMatches, Sequenced, Canonical;
    var o := Ordered(t);
    CanonicalIsSequenced(o.commands, t.committedRevision);
    HeaderRecordSurvives(o);
    CommitSurvives(sha, o, o, CommandSection(sha, o.commands));
    CountSurvives(|o.commands|, []);
    RecordsHaveTheirSizes(sha, o.commands, 0, t.committedRevision);
  }

  /** Writing succeeds exactly on writable transactions, never for lack of room, and its size is exact. */
  lemma WrittenForm(sha: Hasher, t: EditTransaction)
    ensures WriteTransaction(sha, t).Success? <==> Writable(t)
    ensures Writable(t) ==>
      && Storable(SectionsOf(sha, Ordered(t)))
      && WriteTransaction(sha, t) == Success(Layout(sha, EDIT_MAGIC, 0, t.sourceRevision, SectionsOf(sha, Ordered(t))))
      && TotalSize(SectionsOf(sha, Ordered(t))) == FRAME_SIZE + RecordSizes(SortBySequence(t.commands))
  {
    if Writable(t) {
      hide CommandSection, HeaderFieldsOf, CommitFields, EncodeFields, ValidCommand, Layout, Canonical, FirstProblem,
           SortByKind, Storable, TotalSize, RecordSizes;
      SectionSizes(sha, t);
      var o := Ordered(t);
      var c := CommandSection(sha, o.commands);
      var h, m := EncodeFields(HeaderFieldsOf(o)), EncodeFields(CommitFields(sha, o, c));
      ThreeSectionsAreStorable(h, c, m);
      SortThreeSections(Section(HEADER_SECTION, 0, h), Section(COMMAND_SECTION, 0, c), Section(COMMIT_SECTION, 0, m));
      StorableFacts(SectionsOf(sha, o));
    }
  }

  lemma StorableFacts(sections: seq<Section>)
    requires Storable(sections)
    ensures |sections| <= MAXIMUM_SECTION_COUNT && TotalSize(sections) <= MAXIMUM_CONTAINER_SIZE
  {}

  lemma FindInThree(h: Section, c: Section, m: Section)
    requires h.kind == HEADER_SECTION && c.kind == COMMAND_SECTION && m.kind == COMMIT_SECTION
    ensures FindSection([h, c, m], HEADER_SECTION) == Some(h)
    ensures FindSection([h, c, m], COMMAND_SECTION) == Some(c)
    ensures FindSection([h, c, m], COMMIT_SECTION) == Some(m)
  {
    assert [h, c, m][1..] == [c, m] && [c, m][1..] == [m];
    assert FindSection([m], COMMIT_SECTION) == Some(m);
    assert FindSection([c, m], COMMIT_SECTION) == Some(m);
  }

  lemma StoredAgrees(t: EditTransaction)
    requires Writable(t)
    ensures ValidHeader(StoredTransaction(t)) && RevisionAndIdsAgree(StoredTransaction(t))
    ensures Canonical(StoredTransaction(t).commands, t.committedRevision)
  {
    var o := SortBySequence(t.commands);
    forall i | 0 <= i < |o| ensures ValidCommand(Stored(o[i])) {
      StoredIsValid(o[i]);
    }
    hide ValidCommand;
    assert DistinctIds(StoredCommands(o));
  }

  lemma ThreeSections(sha: Hasher, t: EditTransaction)
    requires |t.commands| <= MAXIMUM_COMMAND_COUNT
    ensures
      var c := CommandSection(sha, t.commands);
      SectionsOf(sha, t) == [Section(HEADER_SECTION, 0, EncodeFields(HeaderFieldsOf(t))), Section(COMMAND_SECTION, 0, c),
                             Section(COMMIT_SECTION, 0, EncodeFields(CommitFields(sha, t, c)))]
  {
    hide CommandSection, HeaderFieldsOf, CommitFields, EncodeFields;
  }

  lemma WritableSurvives(sha: Hasher, t: EditTransaction)
    requires Writable(t)
    ensures WriteTransaction(sha, t).Success?
    ensures OpenTransaction(sha, WriteTransaction(sha, t).value) == Success(StoredTransaction(t))
  {
    hide CommandSection, HeaderFieldsOf, CommitFields, EncodeFields, ValidCommand, Layout, ReadContainer, FindSection,
         DecodeHeader, DecodeCommands, CommitMatches, Sequenced, Canonical, Storable, SectionsOf, SortBySequence,
         TotalSize, RecordSizes, WriteTransaction, StoredCommands;
    var o := Ordered(t);
    var c := CommandSection(sha, o.commands);
    var h, m := EncodeFields(HeaderFieldsOf(o)), EncodeFields(CommitFields(sha, o, c));
    WrittenForm(sha, t);
    ThreeSections(sha, o);
    ContainerSurvives(sha, EDIT_MAGIC, 0, t.sourceRevision, SectionsOf(sha, o));
    FindInThree(Section(HEADER_SECTION, 0, h), Section(COMMAND_SECTION, 0, c), Section(COMMIT_SECTION, 0, m));
    CanonicalIsSequenced(o.commands, t.committedRevision);
    HeaderRecordSurvives(o);
    CommandSectionSurvives(sha, o.commands, t.committedRevision);
    CommitSurvives(sha, o, StoredTransaction(t), c);
    StoredAgrees(t);
  }

  /** Opening what was written returns the transaction with its commands in sequence order and unused payloads cleared. */
  lemma TransactionSurvives(sha: Hasher, t: EditTransaction)
    ensures WriteTransaction(sha, t).Success? ==>
      OpenTransaction(sha, WriteTransaction(sha, t).value) == Success(StoredTransaction(t))
  {
    hide Writable, WriteTransaction, OpenTransaction, StoredTransaction, RecordSizes, SectionsOf, Layout, TotalSize, Storable;
    WrittenForm(sha, t);
    if Writable(t) {
      WritableSurvives(sha, t);
    }
  }

  // ---- Written bytes are canonical ----

  lemma StoredFieldsAreEqual(sha: Hasher, c: EditCommand)
    requires ValidCommand(c)
    ensures CommandBytes(sha, Stored(c)) == CommandBytes(sha, c)
  {
    hide EncodeFields, LittleEndian, BoundsFields, ValidCommand;
    assert CommandFields(Stored(c)) == CommandFields(c) && TailFields(Stored(c)) == TailFields(c);
    assert ShapeFields(Stored(c)) == ShapeFields(c);
  }

  lemma {:induction false} StoredRecordsAreEqual(sha: Hasher, commands: seq<EditCommand>)
    requires forall i :: 0 <= i < |commands| ==> ValidCommand(commands[i])
    ensures Records(sha, StoredCommands(commands)) == Records(sha, commands)
    decreases |commands|
  {
    hide CommandBytes, ValidCommand, Stored;
    if |commands| > 0 {
      StoredFieldsAreEqual(sha, commands[0]);
      StoredSplit(commands);
      StoredRecordsAreEqual(sha, commands[1..]);
    }
  }

  /** The opened form of a written transaction is written to the very same bytes. */
  lemma StoredRewritesIdentically(sha: Hasher, t: EditTransaction)
    requires Writable(t)
    ensures WriteTransaction(sha, StoredTransaction(t)) == WriteTransaction(sha, t)
  {
    var o, stored := Ordered(t), StoredTransaction(t);
    StoredAgrees(t);
    CanonicalIsStrict(stored.commands, t.committedRevision);
    WrittenForm(sha, t);
    WrittenForm(sha, stored);
    StoredRecordsAreEqual(sha, o.commands);
    assert Ordered(stored) == stored;
    hide EncodeFields, Layout, ValidCommand, Canonical, SortBySequence, StoredCommands, Records;
    assert HeaderFieldsOf(stored) == HeaderFieldsOf(o);
    assert CommandSection(sha, stored.commands) == CommandSection(sha, o.commands);
    assert SectionsOf(sha, stored) == SectionsOf(sha, o);
  }

  /** Written bytes depend on which commands there are, not on the order they are given in. */
  lemma InputOrderIsIrrelevant(sha: Hasher, t: EditTransaction, commands: seq<EditCommand>)
    requires multiset(commands) == multiset(t.commands)
    ensures WriteTransaction(sha, t.(commands := commands)) == WriteTransaction(sha, t)
  {
    hide Canonical, SortBySequence, SectionsOf, WriteContainer, StrictBySequence, OrderedBySequence;
    var a, b := SortBySequence(t.commands), SortBySequence(commands);
    assert |commands| == |multiset(commands)| == |multiset(t.commands)| == |t.commands|;
    SortIsAPermutation(commands);
    SortIsAPermutation(t.commands);
    if Canonical(a, t.committedRevision) {
      CanonicalIsStrict(a, t.committedRevision);
      StrictOrderIsUnique(a, b);
    } else if Canonical(b, t.committedRevision) {
      CanonicalIsStrict(b, t.committedRevision);
      StrictOrderIsUnique(b, a);
    }
  }

  /** Whatever the bytes, a transaction that opens is canonical. */
  lemma OpenedIsCanonical(sha: Hasher, bytes: seq<Byte>)
    ensures
      var r := OpenTransaction(sha, bytes);
      r.Success? ==> ValidHeader(r.value) && Canonical(r.value.commands, r.value.committedRevision)
  {
    if OpenTransaction(sha, bytes).Success? {
      var section, count := OpenedCommands(sha, bytes);
      hide OpenTransaction, DecodeCommands, ValidCommand, ValidHeader;
      DecodedSection(sha, section, count);
    }
  }

  /** The commands of an opened transaction are those of some section, and its header, revisions and identities agree. */
  lemma OpenedCommands(sha: Hasher, bytes: seq<Byte>) returns (section: seq<Byte>, count: nat)
    requires OpenTransaction(sha, bytes).Success?
    ensures
      var t := OpenTransaction(sha, bytes).value;
      DecodeCommands(sha, section, count) == Some(t.commands) && ValidHeader(t) && RevisionAndIdsAgree(t)
  {
    hide ReadContainer, FindSection, DecodeHeader, CommitMatches, DecodeCommands, ValidHeader, RevisionAndIdsAgree;
    var container := ReadContainer(sha, bytes, EDIT_MAGIC).value;
    section := FindSection(container.sections, COMMAND_SECTION).value.payload;
    count := DecodeHeader(FindSection(container.sections, HEADER_SECTION).value.payload).value.count;
  }

  lemma DecodedSection(sha: Hasher, section: seq<Byte>, count: nat)
    requires DecodeCommands(sha, section, count).Some?
    ensures
      var cs := DecodeCommands(sha, section, count).value;
      forall i :: 0 <= i < |cs| ==> ValidCommand(cs[i]) && cs[i].sequence == i
  {
    hide DecodeFields, ValidCommand, DecodeRecords;
    var d := DecodeFields(COUNT_WIDTHS, section);
    DecodedAreSequenced(sha, d.value.rest, 0, d.value.values[2], None);
  }

  lemma {:induction false} DecodedAreSequenced(sha: Hasher, bytes: seq<Byte>, index: nat, count: nat, seen: Option<U64>)
    requires index <= count && DecodeRecords(sha, bytes, index, count, seen).Some?
    ensures
      var cs := DecodeRecords(sha, bytes, index, count, seen).value;
      forall i :: 0 <= i < |cs| ==> ValidCommand(cs[i]) && cs[i].sequence == index + i
    decreases count - index
  {
    hide DecodeFields, ValidCommand, DecodeCommand;
    if index < count {
      var size := DecodeFields([4], bytes).value.values[0];
      var c := DecodeCommand(sha, bytes[..size]).value;
      DecodedIsValid(sha, bytes[..size]);
      DecodedAreSequenced(sha, bytes[size..], index + 1, count, Some(c.worldRevision));
    }
  }

  lemma DecodedIsValid(sha: Hasher, bytes: seq<Byte>)
    requires DecodeCommand(sha, bytes).Some?
    ensures ValidCommand(DecodeCommand(sha, bytes).value)
  {
    hide ReadHead, ReadBox, ReadTail, ReadSphere, LittleEndian, ValidCommand;
  }
}
