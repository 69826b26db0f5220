/** Which bytes open as a transaction: exactly its forms, in any schema that can say what it says. */
module TransactionForms {
  import opened Numbers
  import opened ChunkKeys
  import opened EditCommands
  import opened EditTransactions
  import opened Bytes
  import opened Containers
  import opened TransactionCodec
  import opened TransactionFiles
  import opened TransactionRoundTrip

  // ---- One record, read and written back ----

  function HeadFields(h: RecordHead): seq<Field> {
    [Field(4, h.recordSize), Field(2, h.major), Field(2, h.minor), Field(16, h.id), Field(4, h.sequence),
     Field(8, h.worldRevision), Field(2, h.operation), Field(2, h.shape), Field(4, h.flags), Field(4, h.density),
     Field(2, h.material), Field(2, h.reserved)]
  }

  lemma TwelveFields(v: seq<nat>)
    requires |v| == 12
    ensures FieldsFrom(COMMAND_WIDTHS, v)
         == [Field(4, v[0]), Field(2, v[1]), Field(2, v[2]), Field(16, v[3]), Field(4, v[4]), Field(8, v[5]),
             Field(2, v[6]), Field(2, v[7]), Field(4, v[8]), Field(4, v[9]), Field(2, v[10]), Field(2, v[11])]
  {}

  lemma HeadRewrites(bytes: seq<Byte>)
    requires ReadHead(bytes).Some?
    ensures bytes == EncodeFields(HeadFields(ReadHead(bytes).value)) + ReadHead(bytes).value.rest
  {
    hide EncodeFields, DecodeFields, FieldsFrom;
    FieldsRewrite(COMMAND_WIDTHS, bytes);
    TwelveFields(DecodeFields(COMMAND_WIDTHS, bytes).value.values);
  }

  lemma BoxRewrites(bytes: seq<Byte>)
    requires ReadBox(bytes).Some?
    ensures var b := ReadBox(bytes).value; bytes == EncodeFields(BoxFields(b.box)) + b.rest
  {
    FieldsRewrite(BOUNDS_WIDTHS, bytes);
    var v := DecodeFields(BOUNDS_WIDTHS, bytes).value.values;
    forall i | 0 <= i < 6 ensures Unsigned64(Signed64(v[i])) == v[i] {
      SignRewrites(v[i]);
    }
    hide EncodeFields, DecodeFields, Unsigned64, Signed64;
    assert FieldsFrom(BOUNDS_WIDTHS, v) == BoxFields(ReadBox(bytes).value.box);
  }

  lemma SphereRewrites(bytes: seq<Byte>)
    requires ReadSphere(bytes).Some?
    ensures var s := ReadSphere(bytes).value; bytes == EncodeFields(SphereFields(s.sphere)) + s.rest
  {
    FieldsRewrite(SPHERE_WIDTHS, bytes);
    var v := DecodeFields(SPHERE_WIDTHS, bytes).value.values;
    forall i | 0 <= i < 3 ensures Unsigned64(Signed64(v[i])) == v[i] {
      SignRewrites(v[i]);
    }
    hide EncodeFields, DecodeFields, Unsigned64, Signed64;
    assert FieldsFrom(SPHERE_WIDTHS, v) == SphereFields(ReadSphere(bytes).value.sphere);
  }

  lemma TailRewrites(bytes: seq<Byte>)
    requires ReadTail(bytes).Some?
    ensures var t := ReadTail(bytes).value; bytes == EncodeFields([Field(4, t.payloadSize), Field(4, t.smooth)]) + t.rest
  {
    FieldsRewrite(TAIL_WIDTHS, bytes);
    hide EncodeFields, DecodeFields;
    var t := ReadTail(bytes).value;
    assert FieldsFrom(TAIL_WIDTHS, DecodeFields(TAIL_WIDTHS, bytes).value.values)
        == [Field(4, t.payloadSize), Field(4, t.smooth)];
  }

  lemma ShapeRewrites(h: RecordHead, bounds: Box3, smooth: U32, payload: seq<Byte>)
    requires DecodeShape(h, bounds, smooth, payload).Some?
    ensures
      var c := DecodeShape(h, bounds, smooth, payload).value;
      && payload == EncodeFields(ShapeFields(c)) && ValidCommand(c) && Stored(c) == c
      && c == Assemble(h, bounds, smooth, c.sphere, c.box)
  {
    hide EncodeFields, ReadSphere, ReadBox, ValidCommand, SphereFields, BoundsFields;
    if h.shape == SPHERE {
      SphereRewrites(payload);
      assert EncodeFields(SphereFields(ReadSphere(payload).value.sphere)) + [] == payload;
    } else {
      BoxRewrites(payload);
      assert EncodeFields(BoxFields(ReadBox(payload).value.box)) + [] == payload;
    }
  }

  /** Content that decodes is what some schema that can say it writes for the command. */
  lemma ContentRewrites(content: seq<Byte>) returns (minor: U16)
    requires DecodeContent(content, |content| + RECORD_HASH_SIZE).Some?
    ensures
      var c := DecodeContent(content, |content| + RECORD_HASH_SIZE).value;
      ValidCommand(c) && Stored(c) == c && InSchema(c, minor) && content == ContentAt(c, minor)
  {
    hide EncodeFields, ReadHead, ReadBox, ReadTail, DecodeShape, ValidCommand, Stored, BoundsFields, ShapeFields, HeadFields,
         CommandFieldsAt, Assemble;
    var size := |content| + RECORD_HASH_SIZE;
    var c := DecodeContent(content, size).value;
    var h := ReadHead(content).value;
    var b := ReadBox(h.rest).value;
    var t := ReadTail(b.rest).value;
    minor := h.minor;
    HeadRewrites(content);
    BoxRewrites(h.rest);
    TailRewrites(b.rest);
    ShapeRewrites(h, BoxAsBounds(b.box), t.smooth, t.rest);
    AssembledSaysTheSame(h, BoxAsBounds(b.box), t.smooth, c);
    HeadFieldsSize(h);
    BoundsShape(c.bounds);
    TailSurvives(c, []);
    assert [Field(4, t.payloadSize), Field(4, t.smooth)] == TailFields(c);
    assert |content| == COMMAND_HEADER_SIZE + PayloadSize(c.shape);
    assert h.(recordSize := RecordSize(c.shape)) == h;
  }

  lemma HeadFieldsSize(h: RecordHead)
    ensures |EncodeFields(HeadFields(h))| == 52
  {
    hide EncodeFields, TotalWidth, HeadFields, WidthsOf;
    HeadWidths(h);
    EncodedSize(HeadFields(h));
    CommandWidth();
  }

  lemma HeadWidths(h: RecordHead)
    ensures WidthsOf(HeadFields(h)) == COMMAND_WIDTHS
  {}

  lemma AssembledSaysTheSame(h: RecordHead, bounds: Box3, smooth: U32, c: EditCommand)
    requires AllowedBySchema(h, smooth) && c == Assemble(h, bounds, smooth, c.sphere, c.box)
    ensures InSchema(c, h.minor) && c.smoothRadius == smooth && c.bounds == bounds && c.shape == h.shape
    ensures HeadFields(h.(recordSize := RecordSize(c.shape))) == CommandFieldsAt(c, h.minor)
  {
    hide RecordSize;
  }

  /** The bytes are the record of the command in some schema that can say it. */
  ghost predicate IsRecordOf(sha: Hasher, bytes: seq<Byte>, c: EditCommand) {
    ValidCommand(c) && Stored(c) == c && exists minor: U16 :: InSchema(c, minor) && bytes == RecordAt(sha, c, minor)
  }

  lemma RecordRewrites(sha: Hasher, bytes: seq<Byte>)
    requires DecodeCommand(sha, bytes).Some?
    ensures IsRecordOf(sha, bytes, DecodeCommand(sha, bytes).value)
  {
    hide DecodeContent, ContentAt, ValidCommand, Stored, InSchema, LittleEndian;
    var content := bytes[..|bytes| - RECORD_HASH_SIZE];
    var minor := ContentRewrites(content);
    assert bytes == content + bytes[|bytes| - RECORD_HASH_SIZE..];
    assert bytes == RecordAt(sha, DecodeCommand(sha, bytes).value, minor);
  }

  /** A record decodes to a command exactly when it is that command's record, in some schema that can say it. */
  lemma RecordDecodesExactly(sha: Hasher, bytes: seq<Byte>, c: EditCommand)
    ensures DecodeCommand(sha, bytes) == Some(c) <==> IsRecordOf(sha, bytes, c)
    ensures IsRecordOf(sha, bytes, c) ==> |bytes| == RecordSize(c.shape)
  {
    hide DecodeCommand, RecordAt, ValidCommand, Stored, InSchema;
    if DecodeCommand(sha, bytes).Some? {
      RecordRewrites(sha, bytes);
    }
    if IsRecordOf(sha, bytes, c) {
      var minor: U16 :| InSchema(c, minor) && bytes == RecordAt(sha, c, minor);
      RecordSurvives(sha, c, minor);
    }
  }

  // ---- The command section ----

  /** One record after another, for sequences from `index` on and all of one revision. */
  ghost predicate AreRecordsOf(sha: Hasher, bytes: seq<Byte>, commands: seq<EditCommand>, index: nat, revision: Option<U64>) {
    if |commands| == 0 then bytes == []
    else
      var c, n := commands[0], RecordSize(commands[0].shape);
      && n <= |bytes| && IsRecordOf(sha, bytes[..n], c) && c.sequence == index
      && (revision.Some? ==> c.worldRevision == revision.value)
      && AreRecordsOf(sha, bytes[n..], commands[1..], index + 1, Some(c.worldRevision))
  }

  /** A record starts with its own size. */
  lemma RecordSaysItsSize(sha: Hasher, bytes: seq<Byte>, n: nat)
    requires n <= |bytes| && DecodeCommand(sha, bytes[..n]).Some?
    ensures n >= COMMAND_HEADER_SIZE + RECORD_HASH_SIZE
    ensures DecodeFields([4], bytes).Some? && DecodeFields([4], bytes).value.values[0] == n
  {
    hide ReadBox, ReadTail, DecodeShape, AllowedBySchema, LittleEndian;
    var content := bytes[..n][..n - RECORD_HASH_SIZE];
    FirstNumber(content, COMMAND_WIDTHS);
    FirstNumber(bytes, [4]);
    assert content[..4] == bytes[..4];
    hide DecodeFields;
  }

  lemma FirstNumber(bytes: seq<Byte>, widths: seq<nat>)
    requires |widths| > 0 && widths[0] == 4 && |bytes| >= 4
    ensures DecodeFields(widths, bytes).Some? ==> DecodeFields(widths, bytes).value.values[0] == FromLittleEndian(bytes[..4])
    ensures |widths| == 1 ==> DecodeFields(widths, bytes).Some?
  {}

  lemma {:induction false} RecordsDecodeExactly(sha: Hasher, bytes: seq<Byte>, index: nat, count: nat, revision: Option<U64>,
                                                commands: seq<EditCommand>)
    requires index <= count
    ensures DecodeRecords(sha, bytes, index, count, revision) == Some(commands)
       <==> |commands| == count - index && AreRecordsOf(sha, bytes, commands, index, revision)
    decreases count - index
  {
    hide DecodeCommand, IsRecordOf, DecodeFields;
    if index < count {
      if DecodeRecords(sha, bytes, index, count, revision) == Some(commands) {
        var size := DecodeFields([4], bytes).value.values[0];
        RecordDecodesExactly(sha, bytes[..size], commands[0]);
        RecordsDecodeExactly(sha, bytes[size..], index + 1, count, Some(commands[0].worldRevision), commands[1..]);
      }
      if |commands| == count - index && AreRecordsOf(sha, bytes, commands, index, revision) {
        var n := RecordSize(commands[0].shape);
        RecordDecodesExactly(sha, bytes[..n], commands[0]);
        RecordSaysItsSize(sha, bytes, n);
        RecordsDecodeExactly(sha, bytes[n..], index + 1, count, Some(commands[0].worldRevision), commands[1..]);
        assert commands == [commands[0]] + commands[1..];
      }
    }
  }

  /** The section names a schema and the number of commands, and then the records follow. */
  ghost predicate IsSectionOf(sha: Hasher, bytes: seq<Byte>, commands: seq<EditCommand>) {
    |commands| < U32_COUNT && exists minor: U16 {:trigger CountFieldsAt(|commands|, minor)} ::
      && minor <= SCHEMA_MINOR && EncodeFields(CountFieldsAt(|commands|, minor)) <= bytes
      && AreRecordsOf(sha, bytes[|EncodeFields(CountFieldsAt(|commands|, minor))|..], commands, 0, None)
  }

  lemma CountReads(count: U32, minor: U16, rest: seq<Byte>)
    ensures DecodeFields(COUNT_WIDTHS, EncodeFields(CountFieldsAt(count, minor)) + rest)
         == Some(Decoded([SCHEMA_MAJOR, minor, count], rest))
  {
    var fields := CountFieldsAt(count, minor);
    FieldsSurvive(fields, rest);
    hide EncodeFields, DecodeFields;
    assert WidthsOf(fields) == COUNT_WIDTHS && ValuesOf(fields) == [SCHEMA_MAJOR, minor, count];
  }

  lemma CountRewrites(bytes: seq<Byte>)
    requires DecodeFields(COUNT_WIDTHS, bytes).Some? && DecodeFields(COUNT_WIDTHS, bytes).value.values[0] == SCHEMA_MAJOR
    ensures
      var d := DecodeFields(COUNT_WIDTHS, bytes).value;
      d.values[1] < 0x1_0000 && bytes == EncodeFields(CountFieldsAt(d.values[2], d.values[1])) + d.rest
  {
    FieldsRewrite(COUNT_WIDTHS, bytes);
    hide EncodeFields, DecodeFields;
    var d := DecodeFields(COUNT_WIDTHS, bytes).value;
    assert FieldsFrom(COUNT_WIDTHS, d.values) == CountFieldsAt(d.values[2], d.values[1]);
  }

  lemma SectionDecodesExactly(sha: Hasher, bytes: seq<Byte>, commands: seq<EditCommand>, expected: U32)
    ensures DecodeCommands(sha, bytes, expected) == Some(commands)
       <==> |commands| == expected && IsSectionOf(sha, bytes, commands)
  {
    hide DecodeFields, DecodeRecords, AreRecordsOf, EncodeFields, CountFieldsAt;
    if DecodeCommands(sha, bytes, expected) == Some(commands) {
      CountRewrites(bytes);
      var d := DecodeFields(COUNT_WIDTHS, bytes).value;
      RecordsDecodeExactly(sha, d.rest, 0, expected, None, commands);
      assert bytes[|EncodeFields(CountFieldsAt(expected, d.values[1]))|..] == d.rest;
    }
    if |commands| == expected && IsSectionOf(sha, bytes, commands) {
      var minor: U16 :| minor <= SCHEMA_MINOR && EncodeFields(CountFieldsAt(|commands|, minor)) <= bytes
        && AreRecordsOf(sha, bytes[|EncodeFields(CountFieldsAt(|commands|, minor))|..], commands, 0, None);
      var first := EncodeFields(CountFieldsAt(|commands|, minor));
      CountReads(expected, minor, bytes[|first|..]);
      assert first + bytes[|first|..] == bytes;
      RecordsDecodeExactly(sha, bytes[|first|..], 0, expected, None, commands);
    }
  }

  // ---- Header and commit ----

  ghost predicate IsHeaderOf(bytes: seq<Byte>, t: EditTransaction, count: nat) {
    0 < count <= MAXIMUM_COMMAND_COUNT && exists minor: U16 {:trigger HeaderFieldsAt(t, count, minor)} ::
      minor <= SCHEMA_MINOR && bytes == EncodeFields(HeaderFieldsAt(t, count, minor))
  }

  lemma HeaderReads(t: EditTransaction, count: U32, minor: U16)
    ensures
      var bytes := EncodeFields(HeaderFieldsAt(t, count, minor));
      && |bytes| == HEADER_RECORD_SIZE
      && DecodeFields(HEADER_RECORD_WIDTHS, bytes)
         == Some(Decoded([SCHEMA_MAJOR, minor, t.id, t.sourceRevision, t.baseRevision, t.committedRevision, t.author,
                          count, 0, 0], []))
  {
    var fields := HeaderFieldsAt(t, count, minor);
    HeaderShapeAt(t, count, minor);
    hide EncodeFields, DecodeFields, HeaderFieldsAt, FieldsFit, TotalWidth;
    FieldsSurvive(fields, []);
    EncodedSize(fields);
    RecordWidthsAre();
    assert EncodeFields(fields) + [] == EncodeFields(fields);
  }

  lemma HeaderShapeAt(t: EditTransaction, count: U32, minor: U16)
    ensures
      var fields := HeaderFieldsAt(t, count, minor);
      && FieldsFit(fields) && WidthsOf(fields) == HEADER_RECORD_WIDTHS
      && ValuesOf(fields) == [SCHEMA_MAJOR, minor, t.id, t.sourceRevision, t.baseRevision, t.committedRevision, t.author,
                              count, 0, 0]
  {}

  /** A header record decodes to what it was written from, in any schema, and no other bytes do. */
  lemma HeaderDecodesExactly(bytes: seq<Byte>, t: EditTransaction, count: U32)
    requires t.commands == []
    ensures DecodeHeader(bytes) == Some(HeaderRead(t, count)) <==> IsHeaderOf(bytes, t, count)
  {
    if DecodeHeader(bytes) == Some(HeaderRead(t, count)) {
      HeaderRewrites(bytes, t, count);
    }
    if IsHeaderOf(bytes, t, count) {
      hide EncodeFields, DecodeFields, HeaderFieldsAt;
      var minor: U16 :| minor <= SCHEMA_MINOR && bytes == EncodeFields(HeaderFieldsAt(t, count, minor));
      HeaderReads(t, count, minor);
    }
  }

  lemma HeaderRewrites(bytes: seq<Byte>, t: EditTransaction, count: U32)
    requires DecodeHeader(bytes) == Some(HeaderRead(t, count))
    ensures IsHeaderOf(bytes, t, count)
  {
    FieldsRewrite(HEADER_RECORD_WIDTHS, bytes);
    hide EncodeFields, DecodeFields;
    var v := DecodeFields(HEADER_RECORD_WIDTHS, bytes).value.values;
    assert FieldsFrom(HEADER_RECORD_WIDTHS, v) == HeaderFieldsAt(t, count, v[1]);
    assert EncodeFields(HeaderFieldsAt(t, count, v[1])) + [] == EncodeFields(HeaderFieldsAt(t, count, v[1]));
  }

  ghost predicate IsCommitOf(sha: Hasher, bytes: seq<Byte>, t: EditTransaction, section: seq<Byte>) {
    exists minor: U16 {:trigger CommitFieldsAt(sha, t, section, minor)} ::
      minor <= SCHEMA_MINOR && bytes == EncodeFields(CommitFieldsAt(sha, t, section, minor))
  }

  lemma CommitReads(sha: Hasher, t: EditTransaction, section: seq<Byte>, minor: U16)
    requires |t.commands| < U32_COUNT
    ensures
      var bytes := EncodeFields(CommitFieldsAt(sha, t, section, minor));
      && |bytes| == COMMIT_SIZE
      && DecodeFields(COMMIT_WIDTHS, bytes)
         == Some(Decoded([SCHEMA_MAJOR, minor, t.id, t.committedRevision, |t.commands|, 0, sha(section)], []))
  {
    var fields := CommitFieldsAt(sha, t, section, minor);
    CommitShapeAt(sha, t, section, minor);
    hide EncodeFields, DecodeFields, CommitFieldsAt, FieldsFit, TotalWidth;
    FieldsSurvive(fields, []);
    EncodedSize(fields);
    RecordWidthsAre();
    assert EncodeFields(fields) + [] == EncodeFields(fields);
  }

  lemma CommitShapeAt(sha: Hasher, t: EditTransaction, section: seq<Byte>, minor: U16)
    requires |t.commands| < U32_COUNT
    ensures
      var fields := CommitFieldsAt(sha, t, section, minor);
      && FieldsFit(fields) && WidthsOf(fields) == COMMIT_WIDTHS
      && ValuesOf(fields) == [SCHEMA_MAJOR, minor, t.id, t.committedRevision, |t.commands|, 0, sha(section)]
  {}

  /** A commit record fits a transaction and its section exactly when it is written from them, in any schema. */
  lemma CommitMatchesExactly(sha: Hasher, bytes: seq<Byte>, t: EditTransaction, section: seq<Byte>)
    requires |t.commands| < U32_COUNT
    ensures CommitMatches(sha, bytes, t, section) <==> IsCommitOf(sha, bytes, t, section)
  {
    if CommitMatches(sha, bytes, t, section) {
      CommitRewrites(sha, bytes, t, section);
    }
    if IsCommitOf(sha, bytes, t, section) {
      hide EncodeFields, DecodeFields, CommitFieldsAt;
      var minor: U16 :| minor <= SCHEMA_MINOR && bytes == EncodeFields(CommitFieldsAt(sha, t, section, minor));
      CommitReads(sha, t, section, minor);
    }
  }

  lemma CommitRewrites(sha: Hasher, bytes: seq<Byte>, t: EditTransaction, section: seq<Byte>)
    requires CommitMatches(sha, bytes, t, section)
    ensures IsCommitOf(sha, bytes, t, section)
  {
    FieldsRewrite(COMMIT_WIDTHS, bytes);
    hide EncodeFields, DecodeFields;
    var v := DecodeFields(COMMIT_WIDTHS, bytes).value.values;
    assert FieldsFrom(COMMIT_WIDTHS, v) == CommitFieldsAt(sha, t, section, v[1]);
    assert EncodeFields(CommitFieldsAt(sha, t, section, v[1])) + [] == EncodeFields(CommitFieldsAt(sha, t, section, v[1]));
  }

  // ---- The whole file ----

  /** A container of three plain sections, the forms of the transaction's header, commands and commit. */
  ghost predicate IsFileOf(sha: Hasher, bytes: seq<Byte>, t: EditTransaction) {
    var container := ReadContainer(sha, bytes, EDIT_MAGIC);
    container.Success? && container.value.sourceRevision == t.sourceRevision && |container.value.sections| == 3 &&
    var ss := container.value.sections;
    var header, commands, commit :=
      FindSection(ss, HEADER_SECTION), FindSection(ss, COMMAND_SECTION), FindSection(ss, COMMIT_SECTION);
    && header.Some? && commands.Some? && commit.Some?
    && header.value.flags == 0 && commands.value.flags == 0 && commit.value.flags == 0
    && IsHeaderOf(header.value.payload, t, |t.commands|) && IsSectionOf(sha, commands.value.payload, t.commands)
    && IsCommitOf(sha, commit.value.payload, t, commands.value.payload)
  }

  lemma OpenedIsAFile(sha: Hasher, bytes: seq<Byte>)
    requires OpenTransaction(sha, bytes).Success?
    ensures IsFileOf(sha, bytes, OpenTransaction(sha, bytes).value)
  {
    hide ReadContainer, FindSection, DecodeHeader, DecodeCommands, CommitMatches, ValidHeader, RevisionAndIdsAgree,
         IsSectionOf, IsCommitOf, HeaderFieldsAt;
    var t := OpenTransaction(sha, bytes).value;
    var ss := ReadContainer(sha, bytes, EDIT_MAGIC).value.sections;
    var header, commands, commit := FindSection(ss, HEADER_SECTION).value.payload,
      FindSection(ss, COMMAND_SECTION).value.payload, FindSection(ss, COMMIT_SECTION).value.payload;
    var h := DecodeHeader(header).value;
    HeadersCarryNoCommands(header);
    SectionDecodesExactly(sha, commands, t.commands, h.count);
    HeaderDecodesExactly(header, t.(commands := []), h.count);
    HeaderIgnoresCommands(header, t, h.count);
    CommitMatchesExactly(sha, commit, t, commands);
  }

  lemma HeadersCarryNoCommands(bytes: seq<Byte>)
    requires DecodeHeader(bytes).Some?
    ensures DecodeHeader(bytes).value.t.commands == [] && DecodeHeader(bytes).value.count <= MAXIMUM_COMMAND_COUNT
  {
    hide DecodeFields;
  }

  lemma HeaderIgnoresCommands(bytes: seq<Byte>, t: EditTransaction, count: nat)
    ensures IsHeaderOf(bytes, t.(commands := []), count) <==> IsHeaderOf(bytes, t, count)
  {
    hide EncodeFields;
    forall minor: U16 ensures HeaderFieldsAt(t.(commands := []), count, minor) == HeaderFieldsAt(t, count, minor) {}
  }

  /** Bytes open as a transaction exactly when they are a file of it, in whatever schemas can say it, and it is canonical:
      its header is valid and its commands are valid, in sequence, of one revision and with identities of their own. */
  lemma TransactionOpensExactly(sha: Hasher, bytes: seq<Byte>, t: EditTransaction)
    ensures OpenTransaction(sha, bytes) == Success(t)
       <==> IsFileOf(sha, bytes, t) && ValidHeader(t) && Canonical(t.commands, t.committedRevision)
  {
    hide OpenTransaction, IsFileOf, ValidHeader, Canonical;
    if OpenTransaction(sha, bytes) == Success(t) {
      OpenedIsAFile(sha, bytes);
      OpenedIsCanonical(sha, bytes);
    }
    if IsFileOf(sha, bytes, t) && ValidHeader(t) && Canonical(t.commands, t.committedRevision) {
      FileOpens(sha, bytes, t);
    }
  }

  lemma FileOpens(sha: Hasher, bytes: seq<Byte>, t: EditTransaction)
    requires IsFileOf(sha, bytes, t) && ValidHeader(t) && Canonical(t.commands, t.committedRevision)
    ensures OpenTransaction(sha, bytes) == Success(t)
  {
    hide ReadContainer, FindSection, DecodeHeader, DecodeCommands, CommitMatches, IsSectionOf, IsCommitOf, IsHeaderOf,
         ValidCommand;
    var ss := ReadContainer(sha, bytes, EDIT_MAGIC).value.sections;
    var header, commands, commit := FindSection(ss, HEADER_SECTION).value.payload,
      FindSection(ss, COMMAND_SECTION).value.payload, FindSection(ss, COMMIT_SECTION).value.payload;
    SectionDecodesExactly(sha, commands, t.commands, |t.commands|);
    HeaderDecodesExactly(header, t.(commands := []), |t.commands|);
    HeaderIgnoresCommands(header, t, |t.commands|);
    CommitMatchesExactly(sha, commit, t, commands);
  }
}
