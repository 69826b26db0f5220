/** The writers and readers that move through buffers, each shown to produce or accept exactly the stored form. */
module TransactionIO {
  import opened Numbers
  import opened EditCommands
  import opened EditTransactions
  import opened Bytes
  import opened Containers
  import opened TransactionCodec
  import opened TransactionFiles
  import opened TransactionRoundTrip

  // ---- Encoding ----

  lemma PartSizes(c: EditCommand)
    requires ValidCommand(c)
    ensures |EncodeFields(CommandFields(c))| == 52 && |EncodeFields(BoundsFields(c.bounds))| == 48
    ensures |EncodeFields(TailFields(c))| == 8 && |EncodeFields(ShapeFields(c))| == PayloadSize(c.shape)
  {
    hide EncodeFields, CommandFieldsAt, BoundsFields, TailFields, ShapeFields, ValidCommand;
    HeadSize(c, SCHEMA_MINOR);
    BoundsShape(c.bounds);
    TailSurvives(c, []);
    ShapeSurvives(c);
  }

  lemma FourParts(a: seq<Byte>, b: seq<Byte>, c: seq<Byte>, d: seq<Byte>)
    ensures a + b + c + d == a + (b + (c + d))
  {
    assert (a + b) + (c + d) == a + (b + (c + d));
  }

  method EncodeContent(c: EditCommand, writer: Writer)
    requires ValidCommand(c) && writer.bytes == [] && writer.capacity == RecordSize(c.shape)
    modifies writer
    ensures writer.bytes == CommandContent(c) && |writer.bytes| + RECORD_HASH_SIZE == writer.capacity
  {
    PartSizes(c);
    FourParts(EncodeFields(CommandFields(c)), EncodeFields(BoundsFields(c.bounds)), EncodeFields(TailFields(c)),
              EncodeFields(ShapeFields(c)));
    hide EncodeFields, CommandFields, BoundsFields, TailFields, ShapeFields, ValidCommand, PayloadSize;
    var ok := writer.WriteFields(CommandFields(c));
    assert writer.bytes == EncodeFields(CommandFields(c));
    ok := writer.WriteFields(BoundsFields(c.bounds));
    ok := writer.WriteFields(TailFields(c));
    ok := writer.WriteFields(ShapeFields(c));
  }

  method EncodeCommand(sha: Hasher, c: EditCommand) returns (record: seq<Byte>)
    requires ValidCommand(c)
    ensures record == CommandBytes(sha, c)
  {
    hide ContentAt, ValidCommand, PayloadSize;
    var writer := new Writer(RecordSize(c.shape));
    EncodeContent(c, writer);
    var digest := sha(writer.bytes);
    var ok := writer.WriteBytes(LittleEndian(RECORD_HASH_SIZE, digest));
    return writer.bytes;
  }

  /** The exact size of the command section, added up before anything is written. */
  method SectionSize(commands: seq<EditCommand>) returns (total: nat)
    ensures total == COMMAND_SECTION_HEADER_SIZE + RecordSizes(commands)
  {
    total := COMMAND_SECTION_HEADER_SIZE;
    for i := 0 to |commands|
      invariant total + RecordSizes(commands[i..]) == COMMAND_SECTION_HEADER_SIZE + RecordSizes(commands)
    {
      assert commands[i..][1..] == commands[i + 1..];
      total := total + RecordSize(commands[i].shape);
    }
  }

  lemma NextRecord(sha: Hasher, commands: seq<EditCommand>, i: nat, written: seq<Byte>)
    requires i < |commands|
    ensures written + Records(sha, commands[i..])
         == written + CommandBytes(sha, commands[i]) + Records(sha, commands[i + 1..])
  {
    hide CommandBytes;
    assert commands[i..][1..] == commands[i + 1..];
    Associative(written, CommandBytes(sha, commands[i]), Records(sha, commands[i + 1..]));
  }

  /** The command section; its buffer is sized beforehand and never overrun. */
  method EncodeCommands(sha: Hasher, commands: seq<EditCommand>, ghost revision: U64) returns (section: seq<Byte>)
    requires Sequenced(commands, 0, revision) && |commands| <= MAXIMUM_COMMAND_COUNT
    ensures section == CommandSection(sha, commands)
  {
    hide CommandBytes, EncodeFields, CountFields, ValidCommand, RecordSizes, Records;
    var total := SectionSize(commands);
    RecordsHaveTheirSizes(sha, commands, 0, revision);
    CountSurvives(|commands|, []);
    var writer := new Writer(total);
    var ok := writer.WriteFields(CountFields(|commands|));
    assert writer.bytes == EncodeFields(CountFields(|commands|));
    for i := 0 to |commands|
      invariant writer.bytes + Records(sha, commands[i..]) == CommandSection(sha, commands)
    {
      var record := EncodeCommand(sha, commands[i]);
      NextRecord(sha, commands, i, writer.bytes);
      assert |writer.bytes + record + Records(sha, commands[i + 1..])| == total;
      ok := writer.WriteBytes(record);
    }
    NoRecordsLeft(sha, commands, writer.bytes);
    return writer.bytes;
  }

  lemma NoRecordsLeft(sha: Hasher, commands: seq<EditCommand>, written: seq<Byte>)
    ensures written + Records(sha, commands[|commands|..]) == written
  {}

  function IdsOf(commands: seq<EditCommand>): set<U128> {
    set c | c in commands :: c.id
  }

  /** One more command keeps a prefix canonical exactly when it fits its place and its id is new. */
  lemma PrefixGrows(commands: seq<EditCommand>, i: nat, revision: U64)
    requires i < |commands| && Canonical(commands[..i], revision)
    ensures Canonical(commands[..i + 1], revision)
       <==> ValidCommand(commands[i]) && commands[i].sequence == i && commands[i].worldRevision == revision
            && commands[i].id !in IdsOf(commands[..i])
    ensures IdsOf(commands[..i + 1]) == IdsOf(commands[..i]) + {commands[i].id}
  {
    hide ValidCommand;
    assert commands[..i + 1] == commands[..i] + [commands[i]];
    assert commands[..i + 1][i] == commands[i];
    if commands[i].id in IdsOf(commands[..i]) {
      var k :| 0 <= k < i && commands[k].id == commands[i].id;
      assert commands[..i + 1][k] == commands[k];
    }
  }

  lemma PrefixesAreCanonical(commands: seq<EditCommand>, n: nat, revision: U64)
    requires n <= |commands|
    ensures Canonical(commands, revision) ==> Canonical(commands[..n], revision)
  {
    hide ValidCommand;
  }

  /** Checks the sorted commands one by one, noting ids as it goes. */
  method CheckCommands(commands: seq<EditCommand>, revision: U64) returns (ok: bool)
    ensures ok <==> Canonical(commands, revision)
  {
    hide ValidCommand;
    var ids: set<U128> := {};
    for i := 0 to |commands|
      invariant Canonical(commands[..i], revision) && ids == IdsOf(commands[..i])
    {
      hide Canonical, IdsOf;
      PrefixGrows(commands, i, revision);
      PrefixesAreCanonical(commands, i + 1, revision);
      if !ValidCommand(commands[i]) || commands[i].sequence != i || commands[i].worldRevision != revision
         || commands[i].id in ids {
        return false;
      }
      ids := ids + {commands[i].id};
    }
    assert commands[..|commands|] == commands;
    return true;
  }

  method EncodeSections(sha: Hasher, ordered: EditTransaction) returns (sections: seq<Section>)
    requires 0 < |ordered.commands| <= MAXIMUM_COMMAND_COUNT
    requires Sequenced(ordered.commands, 0, ordered.committedRevision)
    ensures sections == SectionsOf(sha, ordered)
  {
    hide ValidCommand, Sequenced, EncodeFields, HeaderFieldsOf, CommitFields, CommandSection, CommitMatches;
    var header := new Writer(HEADER_RECORD_SIZE);
    HeaderRecordSurvives(ordered);
    var ok := header.WriteFields(HeaderFieldsOf(ordered));
    var commands := EncodeCommands(sha, ordered.commands, ordered.committedRevision);
    var commit := new Writer(COMMIT_SIZE);
    CommitSurvives(sha, ordered, ordered, commands);
    ok := commit.WriteFields(CommitFields(sha, ordered, commands));
    assert header.bytes == EncodeFields(HeaderFieldsOf(ordered));
    assert commit.bytes == EncodeFields(CommitFields(sha, ordered, commands));
    return [Section(HEADER_SECTION, 0, header.bytes), Section(COMMAND_SECTION, 0, commands), Section(COMMIT_SECTION, 0, commit.bytes)];
  }

  method Write(sha: Hasher, t: EditTransaction) returns (r: Result<seq<Byte>, FileStatus>)
    ensures r == WriteTransaction(sha, t)
  {
    hide Canonical, ValidCommand, Sequenced, SectionsOf, SortBySequence, WriteContainer;
    if !ValidHeader(t) {
      return Failure(InvalidTransactionInput);
    }
    var ordered := t.(commands := SortBySequence(t.commands));
    var ok := CheckCommands(ordered.commands, t.committedRevision);
    if !ok {
      return Failure(InvalidTransactionInput);
    }
    CanonicalIsSequenced(ordered.commands, t.committedRevision);
    var sections := EncodeSections(sha, ordered);
    var written := WriteContainer(sha, EDIT_MAGIC, 0, t.sourceRevision, sections);
    return if written.Failure? then Failure(ContainerFailure) else Success(written.value);
  }

  // ---- Decoding ----

  method DecodeRecord(sha: Hasher, bytes: seq<Byte>) returns (r: Option<EditCommand>)
    ensures r == DecodeCommand(sha, bytes)
  {
    if |bytes| < COMMAND_HEADER_SIZE + RECORD_HASH_SIZE {
      return None;
    }
    var content := bytes[..|bytes| - RECORD_HASH_SIZE];
    if LittleEndian(RECORD_HASH_SIZE, sha(content)) != bytes[|bytes| - RECORD_HASH_SIZE..] {
      return None;
    }
    r := ReadRecord(content, |bytes|);
  }

  method ReadRecord(content: seq<Byte>, recordSize: nat) returns (r: Option<EditCommand>)
    ensures r == DecodeContent(content, recordSize)
  {
    hide DecodeFields, DecodeShape, RecordSize, PayloadSize;
    var reader := new Reader(content);
    assert content[0..] == content;
    var head := reader.ReadFields(COMMAND_WIDTHS);
    if head.None? {
      return None;
    }
    var h := ReadHead(content).value;
    assert h.rest == content[reader.position..];
    var bounds := reader.ReadFields(BOUNDS_WIDTHS);
    if bounds.None? {
      return None;
    }
    var b := ReadBox(h.rest).value;
    assert b.rest == content[reader.position..];
    var tail := reader.ReadFields(TAIL_WIDTHS);
    if tail.None? {
      return None;
    }
    var smooth, payloadSize := tail.value[1], tail.value[0];
    if h.recordSize != recordSize || !AllowedBySchema(h, smooth) || payloadSize != PayloadSize(h.shape)
       || reader.Remaining() != payloadSize {
      return None;
    }
    return DecodeShape(h, BoxAsBounds(b.box), smooth, content[reader.position..]);
  }

  method ReadCommands(sha: Hasher, bytes: seq<Byte>, expected: nat) returns (r: Option<seq<EditCommand>>)
    ensures r == DecodeCommands(sha, bytes, expected)
  {
    hide DecodeFields, DecodeCommand;
    var reader := new Reader(bytes);
    assert bytes[0..] == bytes;
    var head := reader.ReadFields(COUNT_WIDTHS);
    if head.None? {
      return None;
    }
    if head.value[0] != SCHEMA_MAJOR || head.value[1] > SCHEMA_MINOR || head.value[2] != expected {
      return None;
    }
    var count := head.value[2];
    var output: seq<EditCommand> := [];
    ghost var start := bytes[reader.position..];
    NothingAdded(DecodeRecords(sha, start, 0, count, None));
    var index := 0;
    while index < count
      invariant 0 <= index <= count && |output| == index && reader.Valid()
      invariant Added(output, DecodeRecords(sha, bytes[reader.position..], index, count, SeenRevision(output)))
             == DecodeRecords(sha, start, 0, count, None)
    {
      ghost var rest := bytes[reader.position..];
      ghost var before := output;
      var position := reader.position;
      var size := reader.ReadFields([4]);
      if size.None? || size.value[0] < COMMAND_HEADER_SIZE + RECORD_HASH_SIZE {
        return None;
      }
      var sought := reader.Seek(position);
      var record := reader.ReadBytes(size.value[0]);
      if record.None? {
        return None;
      }
      assert record.value == rest[..size.value[0]] && bytes[reader.position..] == rest[size.value[0]..];
      var c := DecodeRecord(sha, record.value);
      if c.None? || c.value.sequence != index
         || (|output| > 0 && output[|output| - 1].worldRevision != c.value.worldRevision) {
        return None;
      }
      output := output + [c.value];
      AddOne(before, c.value, DecodeRecords(sha, bytes[reader.position..], index + 1, count, SeenRevision(output)));
      index := index + 1;
    }
    if reader.Remaining() != 0 {
      return None;
    }
    assert bytes[reader.position..] == [];
    assert output + [] == output;
    return Some(output);
  }

  function SeenRevision(output: seq<EditCommand>): Option<U64> {
    if |output| == 0 then None else Some(output[|output| - 1].worldRevision)
  }

  function Added(output: seq<EditCommand>, rest: Option<seq<EditCommand>>): Option<seq<EditCommand>> {
    if rest.None? then None else Some(output + rest.value)
  }

  lemma NothingAdded(rest: Option<seq<EditCommand>>)
    ensures Added([], rest) == rest
  {
    if rest.Some? {
      assert [] + rest.value == rest.value;
    }
  }

  lemma AddOne(output: seq<EditCommand>, c: EditCommand, tail: Option<seq<EditCommand>>)
    ensures Added(output + [c], tail) == Added(output, if tail.None? then None else Some([c] + tail.value))
  {
    if tail.Some? {
      assert output + [c] + tail.value == output + ([c] + tail.value);
    }
  }

  /** Every command at the transaction's revision, no id twice. */
  method CheckRevisionAndIds(t: EditTransaction) returns (ok: bool)
    ensures ok <==> RevisionAndIdsAgree(t)
  {
    var ids: set<U128> := {};
    for i := 0 to |t.commands|
      invariant forall j :: 0 <= j < i ==> t.commands[j].worldRevision == t.committedRevision
      invariant forall j, k :: 0 <= j < k < i ==> t.commands[j].id != t.commands[k].id
      invariant forall v :: v in ids <==> exists j :: 0 <= j < i && t.commands[j].id == v
    {
      if t.commands[i].worldRevision != t.committedRevision || t.commands[i].id in ids {
        return false;
      }
      ids := ids + {t.commands[i].id};
    }
    return true;
  }

  method Open(sha: Hasher, bytes: seq<Byte>) returns (r: Result<EditTransaction, FileStatus>)
    ensures r == OpenTransaction(sha, bytes)
  {
    hide ReadContainer, DecodeHeader, DecodeCommands, CommitMatches, RevisionAndIdsAgree, FindSection;
    var container := ReadContainer(sha, bytes, EDIT_MAGIC);
    if container.Failure? {
      return Failure(ContainerFailure);
    }
    var ss := container.value.sections;
    var header, commands, commit :=
      FindSection(ss, HEADER_SECTION), FindSection(ss, COMMAND_SECTION), FindSection(ss, COMMIT_SECTION);
    if |ss| != 3 || header.None? || commands.None? || commit.None?
       || header.value.flags != 0 || commands.value.flags != 0 || commit.value.flags != 0 {
      return Failure(InvalidTransaction);
    }
    var h := DecodeHeader(header.value.payload);
    if h.None? || h.value.t.sourceRevision != container.value.sourceRevision {
      return Failure(InvalidTransaction);
    }
    var cs := ReadCommands(sha, commands.value.payload, h.value.count);
    if cs.None? {
      return Failure(InvalidTransaction);
    }
    var t := h.value.t.(commands := cs.value);
    if !ValidHeader(t) {
      return Failure(InvalidTransaction);
    }
    var agrees := CheckRevisionAndIds(t);
    if !agrees {
      return Failure(InvalidTransaction);
    }
    if !CommitMatches(sha, commit.value.payload, t, commands.value.payload) {
      return Failure(CommitMismatch);
    }
    return Success(t);
  }
}
