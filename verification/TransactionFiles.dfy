/** A whole transaction as one container: written canonically, opened with every check, found at the front of a journal. */
module TransactionFiles {
  import opened Numbers
  import opened EditCommands
  import opened EditTransactions
  import opened Bytes
  import opened Containers
  import opened TransactionCodec

  // Section names, four characters as a little-endian number.
  const HEADER_SECTION: U32 := 0x5244_4845
  const COMMAND_SECTION: U32 := 0x5344_4D43
  const COMMIT_SECTION: U32 := 0x5449_4D43

  datatype FileStatus = InvalidTransactionInput | InvalidTransaction | ContainerFailure | CommitMismatch

  // ---- Canonical command order ----

  function InsertBySequence(c: EditCommand, sorted: seq<EditCommand>): (r: seq<EditCommand>)
    ensures |r| == |sorted| + 1
  {
    if |sorted| == 0 || c.sequence < sorted[0].sequence then [c] + sorted
    else [sorted[0]] + InsertBySequence(c, sorted[1..])
  }

  function SortBySequence(commands: seq<EditCommand>): (r: seq<EditCommand>)
    ensures |r| == |commands|
  {
    if |commands| == 0 then []
    else InsertBySequence(commands[|commands| - 1], SortBySequence(commands[..|commands| - 1]))
  }

  predicate OrderedBySequence(commands: seq<EditCommand>) {
    forall i, j :: 0 <= i < j < |commands| ==> commands[i].sequence <= commands[j].sequence
  }

  lemma FirstIsLeast(first: EditCommand, rest: seq<EditCommand>)
    requires OrderedBySequence(rest) && forall x :: x in rest ==> first.sequence <= x.sequence
    ensures OrderedBySequence([first] + rest)
  {
    forall i, j | 0 <= i < j < |rest| + 1 ensures ([first] + rest)[i].sequence <= ([first] + rest)[j].sequence {
      assert rest[j - 1] in rest;
    }
  }

  lemma {:induction false} InsertAddsOne(c: EditCommand, sorted: seq<EditCommand>)
    ensures multiset(InsertBySequence(c, sorted)) == multiset(sorted) + multiset{c}
    decreases |sorted|
  {
    if |sorted| > 0 && c.sequence >= sorted[0].sequence {
      assert sorted == [sorted[0]] + sorted[1..];
      InsertAddsOne(c, sorted[1..]);
    }
  }

  lemma {:induction false} InsertKeepsOrder(c: EditCommand, sorted: seq<EditCommand>)
    requires OrderedBySequence(sorted)
    ensures OrderedBySequence(InsertBySequence(c, sorted))
    ensures multiset(InsertBySequence(c, sorted)) == multiset(sorted) + multiset{c}
    decreases |sorted|
  {
    InsertAddsOne(c, sorted);
    if |sorted| > 0 && c.sequence >= sorted[0].sequence {
      var rest := InsertBySequence(c, sorted[1..]);
      InsertKeepsOrder(c, sorted[1..]);
      forall x | x in rest ensures sorted[0].sequence <= x.sequence {
        assert x in multiset(rest);
        assert x == c || x in sorted[1..];
      }
      FirstIsLeast(sorted[0], rest);
      hide OrderedBySequence;
    } else {
      forall x | x in sorted ensures c.sequence <= x.sequence {}
      FirstIsLeast(c, sorted);
      hide OrderedBySequence;
    }
  }

  lemma {:induction false} SortIsAPermutation(commands: seq<EditCommand>)
    ensures OrderedBySequence(SortBySequence(commands))
    ensures multiset(SortBySequence(commands)) == multiset(commands)
    decreases |commands|
  {
    if |commands| > 0 {
      var rest := commands[..|commands| - 1];
      SortIsAPermutation(rest);
      InsertKeepsOrder(commands[|commands| - 1], SortBySequence(rest));
      assert commands == rest + [commands[|commands| - 1]];
    }
  }

  predicate StrictBySequence(commands: seq<EditCommand>) {
    forall i, j :: 0 <= i < j < |commands| ==> commands[i].sequence < commands[j].sequence
  }

  lemma FirstCommandsAgree(a: seq<EditCommand>, b: seq<EditCommand>)
    requires StrictBySequence(a) && OrderedBySequence(b) && multiset(a) == multiset(b) && |a| > 0
    ensures |b| > 0 && a[0] == b[0]
  {
    assert a[0] in multiset(b);
    var k :| 0 <= k < |b| && b[k] == a[0];
    assert b[0] in multiset(a);
    var j :| 0 <= j < |a| && a[j] == b[0];
  }

  lemma DropFirst(a: seq<EditCommand>)
    requires |a| > 0
    ensures multiset(a[1..]) == multiset(a) - multiset{a[0]}
  {
    assert a == [a[0]] + a[1..];
  }

  /** A strictly ordered arrangement is the only ordered arrangement of its commands. */
  lemma {:induction false} StrictOrderIsUnique(a: seq<EditCommand>, b: seq<EditCommand>)
    requires StrictBySequence(a) && OrderedBySequence(b) && multiset(a) == multiset(b)
    ensures a == b
    decreases |a|
  {
    assert |a| == |multiset(a)| == |multiset(b)| == |b|;
    if |a| > 0 {
      FirstCommandsAgree(a, b);
      DropFirst(a);
      DropFirst(b);
      StrictOrderIsUnique(a[1..], b[1..]);
      assert a == [a[0]] + a[1..] && b == [b[0]] + b[1..];
    }
  }

  lemma CanonicalIsStrict(commands: seq<EditCommand>, revision: U64)
    requires Canonical(commands, revision)
    ensures StrictBySequence(commands) && OrderedBySequence(commands) && SortBySequence(commands) == commands
  {
    SortIsAPermutation(commands);
    StrictOrderIsUnique(commands, SortBySequence(commands));
  }

  // ---- The three sections ----

  function Records(sha: Hasher, commands: seq<EditCommand>): seq<Byte> {
    if |commands| == 0 then [] else CommandBytes(sha, commands[0]) + Records(sha, commands[1..])
  }

  function CountFieldsAt(count: nat, minor: U16): seq<Field> {
    [Field(2, SCHEMA_MAJOR), Field(2, minor), Field(4, count)]
  }

  function CountFields(count: nat): seq<Field> { CountFieldsAt(count, SCHEMA_MINOR) }

  const COUNT_WIDTHS: seq<nat> := [2, 2, 4]

  function CommandSection(sha: Hasher, commands: seq<EditCommand>): seq<Byte> {
    EncodeFields(CountFields(|commands|)) + Records(sha, commands)
  }

  function HeaderFieldsAt(t: EditTransaction, count: nat, minor: U16): seq<Field> {
    [Field(2, SCHEMA_MAJOR), Field(2, minor), Field(16, t.id), Field(8, t.sourceRevision), Field(8, t.baseRevision),
     Field(8, t.committedRevision), Field(8, t.author), Field(4, count), Field(4, 0), Field(4, 0)]
  }

  function HeaderFieldsOf(t: EditTransaction): seq<Field> { HeaderFieldsAt(t, |t.commands|, SCHEMA_MINOR) }

  const HEADER_RECORD_WIDTHS: seq<nat> := [2, 2, 16, 8, 8, 8, 8, 4, 4, 4]

  function CommitFieldsAt(sha: Hasher, t: EditTransaction, section: seq<Byte>, minor: U16): seq<Field> {
    [Field(2, SCHEMA_MAJOR), Field(2, minor), Field(16, t.id), Field(8, t.committedRevision),
     Field(4, |t.commands|), Field(4, 0), Field(32, sha(section))]
  }

  function CommitFields(sha: Hasher, t: EditTransaction, section: seq<Byte>): seq<Field> {
    CommitFieldsAt(sha, t, section, SCHEMA_MINOR)
  }

  const COMMIT_WIDTHS: seq<nat> := [2, 2, 16, 8, 4, 4, 32]

  function SectionsOf(sha: Hasher, t: EditTransaction): seq<Section> {
    var commands := CommandSection(sha, t.commands);
    [Section(HEADER_SECTION, 0, EncodeFields(HeaderFieldsOf(t))), Section(COMMAND_SECTION, 0, commands),
     Section(COMMIT_SECTION, 0, EncodeFields(CommitFields(sha, t, commands)))]
  }

  // ---- Writing ----

  ghost function WriteTransaction(sha: Hasher, t: EditTransaction): Result<seq<Byte>, FileStatus> {
    if !ValidHeader(t) then Failure(InvalidTransactionInput)
    else
      var ordered := t.(commands := SortBySequence(t.commands));
      if !Canonical(ordered.commands, t.committedRevision) then Failure(InvalidTransactionInput)
      else
        var written := WriteContainer(sha, EDIT_MAGIC, 0, t.sourceRevision, SectionsOf(sha, ordered));
        if written.Failure? then Failure(ContainerFailure) else Success(written.value)
  }

  // ---- Opening ----

  function FindSection(sections: seq<Section>, kind: U32): Option<Section> {
    if |sections| == 0 then None
    else if sections[0].kind == kind then Some(sections[0])
    else FindSection(sections[1..], kind)
  }

  datatype HeaderRead = HeaderRead(t: EditTransaction, count: U32)

  function DecodeHeader(bytes: seq<Byte>): Option<HeaderRead> {
    if |bytes| != HEADER_RECORD_SIZE then None
    else
      var d := DecodeFields(HEADER_RECORD_WIDTHS, bytes);
      if d.None? then None
      else
        var v := d.value.values;
        if v[0] == SCHEMA_MAJOR && v[1] <= SCHEMA_MINOR && v[8] == 0 && v[9] == 0
           && 0 < v[7] <= MAXIMUM_COMMAND_COUNT && d.value.rest == []
        then Some(HeaderRead(EditTransaction(v[3], v[2], v[4], v[5], v[6], []), v[7]))
        else None
  }

  function DecodeRecords(sha: Hasher, bytes: seq<Byte>, index: nat, count: nat, revision: Option<U64>)
    : Option<seq<EditCommand>>
    requires index <= count
    decreases |bytes|, count - index
  {
    if index == count then if bytes == [] then Some([]) else None
    else
      var d := DecodeFields([4], bytes);
      if d.None? then None
      else
        var size := d.value.values[0];
        if size < COMMAND_HEADER_SIZE + RECORD_HASH_SIZE || size > |bytes| then None
        else
          var c := DecodeCommand(sha, bytes[..size]);
          if c.None? || c.value.sequence != index || (revision.Some? && revision.value != c.value.worldRevision) then None
          else
            var tail := DecodeRecords(sha, bytes[size..], index + 1, count, Some(c.value.worldRevision));
            if tail.None? then None else Some([c.value] + tail.value)
  }

  function DecodeCommands(sha: Hasher, bytes: seq<Byte>, expected: nat): Option<seq<EditCommand>> {
    var d := DecodeFields(COUNT_WIDTHS, bytes);
    if d.None? then None
    else
      var v := d.value.values;
      if v[0] != SCHEMA_MAJOR || v[1] > SCHEMA_MINOR || v[2] != expected then None
      else DecodeRecords(sha, d.value.rest, 0, v[2], None)
  }

  predicate CommitMatches(sha: Hasher, bytes: seq<Byte>, t: EditTransaction, section: seq<Byte>) {
    |bytes| == COMMIT_SIZE &&
    var d := DecodeFields(COMMIT_WIDTHS, bytes);
    d.Some? &&
    var v := d.value.values;
    && v[0] == SCHEMA_MAJOR && v[1] <= SCHEMA_MINOR && v[2] == t.id && v[3] == t.committedRevision
    && v[4] == |t.commands| && v[5] == 0 && v[6] == sha(section) && d.value.rest == []
  }

  ghost predicate RevisionAndIdsAgree(t: EditTransaction) {
    (forall i :: 0 <= i < |t.commands| ==> t.commands[i].worldRevision == t.committedRevision) && DistinctIds(t.commands)
  }

  ghost function OpenTransaction(sha: Hasher, bytes: seq<Byte>): Result<EditTransaction, FileStatus> {
    var container := ReadContainer(sha, bytes, EDIT_MAGIC);
    if container.Failure? then Failure(ContainerFailure)
    else
      var ss := container.value.sections;
      var header, commands, commit :=
        FindSection(ss, HEADER_SECTION), FindSection(ss, COMMAND_SECTION), FindSection(ss, COMMIT_SECTION);
      if |ss| != 3 || header.None? || commands.None? || commit.None?
         || header.value.flags != 0 || commands.value.flags != 0 || commit.value.flags != 0 then Failure(InvalidTransaction)
      else
        var h := DecodeHeader(header.value.payload);
        if h.None? || h.value.t.sourceRevision != container.value.sourceRevision then Failure(InvalidTransaction)
        else
          var cs := DecodeCommands(sha, commands.value.payload, h.value.count);
          if cs.None? then Failure(InvalidTransaction)
          else
            var t := h.value.t.(commands := cs.value);
            if !ValidHeader(t) || !RevisionAndIdsAgree(t) then Failure(InvalidTransaction)
            else if !CommitMatches(sha, commit.value.payload, t, commands.value.payload) then Failure(CommitMismatch)
            else Success(t)
  }

  /** What opening a written transaction returns: commands by sequence, unused payloads cleared. */
  function StoredCommands(commands: seq<EditCommand>): (r: seq<EditCommand>)
    ensures |r| == |commands|
  {
    seq(|commands|, i requires 0 <= i < |commands| => Stored(commands[i]))
  }

  function StoredTransaction(t: EditTransaction): EditTransaction {
    t.(commands := StoredCommands(SortBySequence(t.commands)))
  }
}
