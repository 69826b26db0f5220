/** The hashed section container that every stored object uses: writing, reading, and measuring a prefix. */
module Containers {
  import opened Numbers
  import opened Bytes

  const HEADER_SIZE := 80
  const ENTRY_SIZE := 68
  const MAXIMUM_CONTAINER_SIZE := 0x1000_0000
  const MAXIMUM_SECTION_SIZE := 0x400_0000
  const MAXIMUM_SECTION_COUNT := 4096

  // The eight identifying bytes of each kind of object, read as a little-endian number.
  const WORLD_MAGIC: U64 := 0x0044_4C52_4F57_5457
  const CHUNK_MAGIC: U64 := 0x004B_4E55_4843_5457
  const EDIT_MAGIC: U64 := 0x0000_5449_4445_5457
  const TRACE_MAGIC: U64 := 0x0045_4341_5254_5457
  const PROCEDURAL_MAGIC: U64 := 0x0000_434F_5250_5457

  datatype ContainerStatus =
    InvalidInput | CapacityExceeded | Truncated | InvalidMagic | UnsupportedVersion | UnsupportedRequiredFeature
  | UnsupportedCodec | InvalidDirectory | DuplicateSection | InvalidSectionBounds | HashMismatch

  datatype Result<+T, +E> = Success(value: T) | Failure(error: E)

  datatype Section = Section(kind: U32, flags: U32, payload: seq<Byte>)

  datatype Container = Container(features: U64, sourceRevision: U64, sections: seq<Section>)

  predicate ValidMagic(magic: U64) {
    magic == WORLD_MAGIC || magic == CHUNK_MAGIC || magic == EDIT_MAGIC || magic == TRACE_MAGIC || magic == PROCEDURAL_MAGIC
  }

  /** No bit of the required half is known, so any of them set is refused. */
  predicate RequiresUnknownFeature(features: U64) {
    features >= 0x1_0000_0000
  }

  // ---- Layout ----

  function HeaderFields(magic: U64, features: U64, source: U64, directorySize: nat, digest: Digest): seq<Field> {
    [Field(8, magic), Field(2, 1), Field(2, 0), Field(4, HEADER_SIZE), Field(8, features), Field(8, source),
     Field(8, HEADER_SIZE), Field(8, directorySize), Field(32, digest)]
  }

  const HEADER_WIDTHS: seq<nat> := [8, 2, 2, 4, 8, 8, 8, 8, 32]

  function EntryFields(sha: Hasher, s: Section, offset: nat): seq<Field> {
    [Field(4, s.kind), Field(4, s.flags), Field(2, 0), Field(2, 0), Field(8, offset), Field(8, |s.payload|),
     Field(8, |s.payload|), Field(32, sha(s.payload))]
  }

  const ENTRY_WIDTHS: seq<nat> := [4, 4, 2, 2, 8, 8, 8, 32]

  function Payloads(sections: seq<Section>): seq<Byte> {
    if |sections| == 0 then [] else sections[0].payload + Payloads(sections[1..])
  }

  function Directory(sha: Hasher, sections: seq<Section>, offset: nat): seq<Byte> {
    if |sections| == 0 then []
    else EncodeFields(EntryFields(sha, sections[0], offset))
         + Directory(sha, sections[1..], offset + |sections[0].payload|)
  }

  function Body(sha: Hasher, sections: seq<Section>): seq<Byte> {
    Directory(sha, sections, HEADER_SIZE + ENTRY_SIZE * |sections|) + Payloads(sections)
  }

  function Layout(sha: Hasher, magic: U64, features: U64, source: U64, sections: seq<Section>): seq<Byte> {
    EncodeFields(HeaderFields(magic, features, source, ENTRY_SIZE * |sections|, sha(Body(sha, sections))))
    + Body(sha, sections)
  }

  // ---- Writing ----

  function InsertByKind(s: Section, sorted: seq<Section>): seq<Section> {
    if |sorted| == 0 || s.kind < sorted[0].kind then [s] + sorted else [sorted[0]] + InsertByKind(s, sorted[1..])
  }

  function SortByKind(sections: seq<Section>): seq<Section> {
    if |sections| == 0 then []
    else InsertByKind(sections[|sections| - 1], SortByKind(sections[..|sections| - 1]))
  }

  function FirstProblem(sections: seq<Section>, from: nat): Option<ContainerStatus>
    requires from <= |sections|
    decreases |sections| - from
  {
    if from == |sections| then None
    else if sections[from].kind == 0 || |sections[from].payload| > MAXIMUM_SECTION_SIZE then Some(InvalidInput)
    else if from > 0 && sections[from - 1].kind == sections[from].kind then Some(DuplicateSection)
    else FirstProblem(sections, from + 1)
  }

  function TotalSize(sections: seq<Section>): nat {
    HEADER_SIZE + ENTRY_SIZE * |sections| + |Payloads(sections)|
  }

  function WriteContainer(sha: Hasher, magic: U64, features: U64, source: U64, sections: seq<Section>)
    : Result<seq<Byte>, ContainerStatus>
  {
    if !ValidMagic(magic) || RequiresUnknownFeature(features) || |sections| > MAXIMUM_SECTION_COUNT then
      Failure(InvalidInput)
    else
      var ordered := SortByKind(sections);
      var problem := FirstProblem(ordered, 0);
      if problem.Some? then Failure(problem.value)
      else if TotalSize(ordered) > MAXIMUM_CONTAINER_SIZE then Failure(CapacityExceeded)
      else Success(Layout(sha, magic, features, source, ordered))
  }

  // ---- Reading ----

  datatype Header = Header(features: U64, source: U64, directorySize: U64, digest: Digest, rest: seq<Byte>)

  /** The checks reading and measuring share, in their order. */
  function ReadHeader(bytes: seq<Byte>, magic: U64): Result<Header, ContainerStatus> {
    if |bytes| < HEADER_SIZE then Failure(Truncated)
    else
      var d := DecodeFields(HEADER_WIDTHS, bytes);
      if d.None? then Failure(Truncated)
      else
        var v := d.value.values;
        if v[0] != magic then Failure(InvalidMagic)
        else if v[1] != 1 || v[2] > 0 then Failure(UnsupportedVersion)
        else if v[3] != HEADER_SIZE || v[6] != HEADER_SIZE || v[7] % ENTRY_SIZE != 0 then Failure(InvalidDirectory)
        else if RequiresUnknownFeature(v[4]) then Failure(UnsupportedRequiredFeature)
        else Success(Header(v[4], v[5], v[7], v[8], d.value.rest))
  }

  datatype Entry = Entry(kind: U32, flags: U32, codec: U16, offset: U64, stored: U64, uncompressed: U64,
                         digest: Digest, rest: seq<Byte>)

  function ReadEntry(bytes: seq<Byte>): Result<Entry, ContainerStatus> {
    var d := DecodeFields(ENTRY_WIDTHS, bytes);
    if d.None? then Failure(Truncated)
    else
      var v := d.value.values;
      if v[3] != 0 then Failure(InvalidDirectory)
      else Success(Entry(v[0], v[1], v[2], v[4], v[5], v[6], v[7], d.value.rest))
  }

  /** Sections of a directory whose first entry is at the front of `rest`; payloads are looked up in `bytes`. */
  function ReadSections(sha: Hasher, bytes: seq<Byte>, rest: seq<Byte>, count: nat, previousEnd: nat, previousKind: nat)
    : Result<seq<Section>, ContainerStatus>
    decreases count
  {
    if count == 0 then if previousEnd != |bytes| then Failure(InvalidSectionBounds) else Success([])
    else
      var e := ReadEntry(rest);
      if e.Failure? then Failure(e.error)
      else
        var s := e.value;
        if s.codec != 0 then Failure(UnsupportedCodec)
        else if s.kind == 0 || s.stored != s.uncompressed || s.stored > MAXIMUM_SECTION_SIZE
                || s.offset < previousEnd || s.offset + s.stored > |bytes| then Failure(InvalidSectionBounds)
        else if previousKind >= s.kind then
          Failure(if previousKind == s.kind then DuplicateSection else InvalidDirectory)
        else
          var payload := bytes[s.offset..s.offset + s.stored];
          if sha(payload) != s.digest then Failure(HashMismatch)
          else
            var tail := ReadSections(sha, bytes, s.rest, count - 1, s.offset + s.stored, s.kind);
            if tail.Failure? then Failure(tail.error) else Success([Section(s.kind, s.flags, payload)] + tail.value)
  }

  function ReadContainer(sha: Hasher, bytes: seq<Byte>, magic: U64): Result<Container, ContainerStatus> {
    if |bytes| > MAXIMUM_CONTAINER_SIZE then Failure(InvalidInput)
    else
      var h := ReadHeader(bytes, magic);
      if h.Failure? then Failure(h.error)
      else if HEADER_SIZE + h.value.directorySize > |bytes| then Failure(InvalidDirectory)
      else if h.value.directorySize / ENTRY_SIZE > MAXIMUM_SECTION_COUNT then Failure(InvalidDirectory)
      else if sha(bytes[HEADER_SIZE..]) != h.value.digest then Failure(HashMismatch)
      else
        var sections := ReadSections(sha, bytes, h.value.rest, h.value.directorySize / ENTRY_SIZE,
                                     HEADER_SIZE + h.value.directorySize, 0);
        if sections.Failure? then Failure(sections.error)
        else Success(Container(h.value.features, h.value.source, sections.value))
  }

  // ---- Measuring ----

  /** The end of the last section of a contiguous directory. */
  function MeasureSections(rest: seq<Byte>, count: nat, previousEnd: nat, previousKind: nat): Result<nat, ContainerStatus>
    decreases count
  {
    if count == 0 then Success(previousEnd)
    else
      var e := ReadEntry(rest);
      if e.Failure? then Failure(e.error)
      else
        var s := e.value;
        if s.codec != 0 then Failure(UnsupportedCodec)
        else if s.kind == 0 || s.stored != s.uncompressed || s.stored > MAXIMUM_SECTION_SIZE
                || s.offset != previousEnd || s.offset + s.stored > MAXIMUM_CONTAINER_SIZE then Failure(InvalidSectionBounds)
        else if previousKind >= s.kind then
          Failure(if previousKind == s.kind then DuplicateSection else InvalidDirectory)
        else MeasureSections(s.rest, count - 1, s.offset + s.stored, s.kind)
  }

  /** The length of the first complete container at the front of the bytes. */
  function MeasureContainer(bytes: seq<Byte>, magic: U64): (r: Result<nat, ContainerStatus>)
    ensures r.Success? ==> r.value <= |bytes|
  {
    var h := ReadHeader(bytes, magic);
    if h.Failure? then Failure(h.error)
    else if HEADER_SIZE + h.value.directorySize > MAXIMUM_CONTAINER_SIZE then Failure(InvalidDirectory)
    else if HEADER_SIZE + h.value.directorySize > |bytes| then Failure(Truncated)
    else if h.value.directorySize / ENTRY_SIZE > MAXIMUM_SECTION_COUNT then Failure(InvalidDirectory)
    else
      var end := MeasureSections(h.value.rest, h.value.directorySize / ENTRY_SIZE, HEADER_SIZE + h.value.directorySize, 0);
      if end.Failure? then Failure(end.error)
      else if end.value > |bytes| then Failure(Truncated)
      else Success(end.value)
  }

  // ---- What writing puts down, reading and measuring find ----

  /** Sections in directory order, as a successful write leaves them. */
  predicate Storable(sections: seq<Section>) {
    && |sections| <= MAXIMUM_SECTION_COUNT && TotalSize(sections) <= MAXIMUM_CONTAINER_SIZE
    && InOrder(sections, 0)
  }

  /** Kinds strictly increase from above `previous`; every payload fits. */
  predicate InOrder(sections: seq<Section>, previous: nat) {
    |sections| == 0 || (previous < sections[0].kind && |sections[0].payload| <= MAXIMUM_SECTION_SIZE
                        && InOrder(sections[1..], sections[0].kind))
  }

  lemma EntryShape(sha: Hasher, s: Section, offset: nat)
    requires offset < U64_COUNT && |s.payload| < U64_COUNT
    ensures
      var fields := EntryFields(sha, s, offset);
      && FieldsFit(fields) && WidthsOf(fields) == ENTRY_WIDTHS
      && ValuesOf(fields) == [s.kind, s.flags, 0, 0, offset, |s.payload|, |s.payload|, sha(s.payload)]
  {}

  lemma EntrySurvives(sha: Hasher, s: Section, offset: nat, tail: seq<Byte>)
    requires offset < U64_COUNT && |s.payload| < U64_COUNT
    ensures |EncodeFields(EntryFields(sha, s, offset))| == ENTRY_SIZE
    ensures ReadEntry(EncodeFields(EntryFields(sha, s, offset)) + tail)
         == Success(Entry(s.kind, s.flags, 0, offset, |s.payload|, |s.payload|, sha(s.payload), tail))
  {
    var fields := EntryFields(sha, s, offset);
    EntryShape(sha, s, offset);
    EncodedSize(fields);
    RecordWidths();
    FieldsSurvive(fields, tail);
    hide EncodeFields, EntryFields, DecodeFields, WidthsOf, ValuesOf, TotalWidth, FieldsFit;
    assert DecodeFields(ENTRY_WIDTHS, EncodeFields(fields) + tail)
        == Some(Decoded([s.kind, s.flags, 0, 0, offset, |s.payload|, |s.payload|, sha(s.payload)], tail));
  }

  lemma RecordWidths()
    ensures TotalWidth(ENTRY_WIDTHS) == ENTRY_SIZE && TotalWidth(HEADER_WIDTHS) == HEADER_SIZE
  {
    assert TotalWidth([8, 8, 8, 32]) == 56;
  }

  lemma HeaderShape(magic: U64, features: U64, source: U64, directorySize: nat, digest: Digest)
    requires directorySize < U64_COUNT
    ensures
      var fields := HeaderFields(magic, features, source, directorySize, digest);
      && FieldsFit(fields) && WidthsOf(fields) == HEADER_WIDTHS
      && ValuesOf(fields) == [magic, 1, 0, HEADER_SIZE, features, source, HEADER_SIZE, directorySize, digest]
  {}

  lemma HeaderSurvives(magic: U64, features: U64, source: U64, directorySize: nat, digest: Digest, tail: seq<Byte>)
    requires directorySize < U64_COUNT && directorySize % ENTRY_SIZE == 0 && !RequiresUnknownFeature(features)
    ensures |EncodeFields(HeaderFields(magic, features, source, directorySize, digest))| == HEADER_SIZE
    ensures ReadHeader(EncodeFields(HeaderFields(magic, features, source, directorySize, digest)) + tail, magic)
         == Success(Header(features, source, directorySize, digest, tail))
  {
    var fields := HeaderFields(magic, features, source, directorySize, digest);
    HeaderShape(magic, features, source, directorySize, digest);
    EncodedSize(fields);
    RecordWidths();
    FieldsSurvive(fields, tail);
    hide EncodeFields, HeaderFields, DecodeFields, WidthsOf, ValuesOf, TotalWidth, FieldsFit;
    var bytes := EncodeFields(fields) + tail;
    assert DecodeFields(HEADER_WIDTHS, bytes)
        == Some(Decoded([magic, 1, 0, HEADER_SIZE, features, source, HEADER_SIZE, directorySize, digest], tail));
  }

  lemma {:induction false} DirectorySize(sha: Hasher, sections: seq<Section>, offset: nat)
    requires offset + |Payloads(sections)| < U64_COUNT
    ensures |Directory(sha, sections, offset)| == ENTRY_SIZE * |sections|
    decreases |sections|
  {
    if |sections| > 0 {
      EntrySurvives(sha, sections[0], offset, []);
      DirectorySize(sha, sections[1..], offset + |sections[0].payload|);
    }
  }

  lemma DirectoryStep(sha: Hasher, sections: seq<Section>, offset: nat, tail: seq<Byte>) returns (next: seq<Byte>)
    requires |sections| > 0 && offset + |Payloads(sections)| < U64_COUNT
    ensures next == Directory(sha, sections[1..], offset + |sections[0].payload|) + tail
    ensures
      var s := sections[0];
      ReadEntry(Directory(sha, sections, offset) + tail)
      == Success(Entry(s.kind, s.flags, 0, offset, |s.payload|, |s.payload|, sha(s.payload), next))
  {
    var s := sections[0];
    var rest := Directory(sha, sections[1..], offset + |s.payload|);
    next := rest + tail;
    Associative(EncodeFields(EntryFields(sha, s, offset)), rest, tail);
    EntrySurvives(sha, s, offset, next);
  }

  lemma ReadOneSection(sha: Hasher, bytes: seq<Byte>, rest: seq<Byte>, next: seq<Byte>, count: nat, off: nat,
                       previous: nat, s: Section)
    requires count > 0 && off + |s.payload| < U64_COUNT
    requires ReadEntry(rest)
          == Success(Entry(s.kind, s.flags, 0, off, |s.payload|, |s.payload|, sha(s.payload), next))
    requires previous < s.kind && |s.payload| <= MAXIMUM_SECTION_SIZE
    requires off + |s.payload| <= |bytes| && bytes[off..off + |s.payload|] == s.payload
    ensures
      var tail := ReadSections(sha, bytes, next, count - 1, off + |s.payload|, s.kind);
      ReadSections(sha, bytes, rest, count, off, previous)
      == if tail.Failure? then Failure(tail.error) else Success([s] + tail.value)
  {}

  /** A written directory reads back as the sections it was written from, payloads included. */
  lemma {:induction false} SectionsSurvive(sha: Hasher, sections: seq<Section>, bytes: seq<Byte>, off: nat,
                                           tail: seq<Byte>, previous: nat)
    requires InOrder(sections, previous) && off + |Payloads(sections)| < U64_COUNT
    requires off <= |bytes| && bytes[off..] == Payloads(sections)
    ensures ReadSections(sha, bytes, Directory(sha, sections, off) + tail, |sections|, off, previous) == Success(sections)
    decreases |sections|
  {
    if |sections| > 0 { FirstInOrder(sections, previous); } else { NothingToStore(sections); }
    hide EntryFields, EncodeFields, ReadEntry, ReadSections, Directory, Payloads, InOrder;
    if |sections| == 0 {
      assert off == |bytes| && sections == [];
      NothingToRead(sha, bytes, Directory(sha, sections, off) + tail, previous);
    } else {
      var s := sections[0];
      var next := DirectoryStep(sha, sections, off, tail);
      PayloadStep(bytes, off, s.payload, Payloads(sections[1..]));
      ReadOneSection(sha, bytes, Directory(sha, sections, off) + tail, next, |sections|, off, previous, s);
      SectionsSurvive(sha, sections[1..], bytes, off + |s.payload|, tail, s.kind);
      assert [s] + sections[1..] == sections;
    }
  }

  lemma NothingToStore(sections: seq<Section>)
    requires |sections| == 0
    ensures Payloads(sections) == []
  {}

  lemma NothingToRead(sha: Hasher, bytes: seq<Byte>, rest: seq<Byte>, previous: nat)
    ensures ReadSections(sha, bytes, rest, 0, |bytes|, previous) == Success([])
  {}

  lemma FirstInOrder(sections: seq<Section>, previous: nat)
    requires |sections| > 0 && InOrder(sections, previous)
    ensures Payloads(sections) == sections[0].payload + Payloads(sections[1..])
    ensures previous < sections[0].kind && |sections[0].payload| <= MAXIMUM_SECTION_SIZE
    ensures InOrder(sections[1..], sections[0].kind)
  {}

  lemma PayloadStep(bytes: seq<Byte>, off: nat, payload: seq<Byte>, rest: seq<Byte>)
    requires off <= |bytes| && bytes[off..] == payload + rest
    ensures off + |payload| <= |bytes| && bytes[off..off + |payload|] == payload && bytes[off + |payload|..] == rest
  {
    assert bytes[off..off + |payload|] == bytes[off..][..|payload|];
    assert bytes[off + |payload|..] == bytes[off..][|payload|..];
  }

  lemma MeasureOneSection(rest: seq<Byte>, next: seq<Byte>, count: nat, off: nat, previous: nat, s: Section, digest: Digest)
    requires count > 0 && off + |s.payload| <= MAXIMUM_CONTAINER_SIZE
    requires ReadEntry(rest) == Success(Entry(s.kind, s.flags, 0, off, |s.payload|, |s.payload|, digest, next))
    requires previous < s.kind && |s.payload| <= MAXIMUM_SECTION_SIZE
    ensures MeasureSections(rest, count, off, previous) == MeasureSections(next, count - 1, off + |s.payload|, s.kind)
  {}

  /** A written directory measures to the end of its last payload, whatever follows it. */
  lemma {:induction false} DirectoryMeasures(sha: Hasher, sections: seq<Section>, offset: nat, tail: seq<Byte>, previous: nat)
    requires InOrder(sections, previous) && offset + |Payloads(sections)| <= MAXIMUM_CONTAINER_SIZE
    ensures MeasureSections(Directory(sha, sections, offset) + tail, |sections|, offset, previous)
         == Success(offset + |Payloads(sections)|)
    decreases |sections|
  {
    hide EncodeFields, EntryFields, ReadEntry;
    if |sections| > 0 {
      var s := sections[0];
      var next := DirectoryStep(sha, sections, offset, tail);
      MeasureOneSection(Directory(sha, sections, offset) + tail, next, |sections|, offset, previous, s, sha(s.payload));
      DirectoryMeasures(sha, sections[1..], offset + |s.payload|, tail, s.kind);
    }
  }

  /** Reading a written container gives back its features, revision and sections. */
  lemma ContainerSurvives(sha: Hasher, magic: U64, features: U64, source: U64, sections: seq<Section>)
    requires Storable(sections) && !RequiresUnknownFeature(features)
    ensures |Layout(sha, magic, features, source, sections)| == TotalSize(sections)
    ensures ReadContainer(sha, Layout(sha, magic, features, source, sections), magic)
         == Success(Container(features, source, sections))
  {
    hide EncodeFields, HeaderFields, ReadHeader, ReadSections, Directory;
    var n := ENTRY_SIZE * |sections|;
    var body := Body(sha, sections);
    HeaderSurvives(magic, features, source, n, sha(body), body);
    DirectorySize(sha, sections, HEADER_SIZE + n);
    var header := EncodeFields(HeaderFields(magic, features, source, n, sha(body)));
    var bytes := header + body;
    assert bytes[HEADER_SIZE..] == body;
    assert bytes[HEADER_SIZE + n..] == body[n..] == Payloads(sections);
    SectionsSurvive(sha, sections, bytes, HEADER_SIZE + n, Payloads(sections), 0);
  }

  // ---- Sections in any order ----

  predicate OrderedByKind(sections: seq<Section>) {
    forall i, j :: 0 <= i < j < |sections| ==> sections[i].kind <= sections[j].kind
  }

  lemma FirstIsLeast(first: Section, rest: seq<Section>)
    requires OrderedByKind(rest) && forall x :: x in rest ==> first.kind <= x.kind
    ensures OrderedByKind([first] + rest)
  {
    forall i, j | 0 <= i < j < |rest| + 1 ensures ([first] + rest)[i].kind <= ([first] + rest)[j].kind {
      assert rest[j - 1] in rest;
    }
  }

  lemma {:induction false} InsertionAddsOne(s: Section, sorted: seq<Section>)
    ensures multiset(InsertByKind(s, sorted)) == multiset(sorted) + multiset{s}
    decreases |sorted|
  {
    if !(|sorted| == 0 || s.kind < sorted[0].kind) {
      assert sorted == [sorted[0]] + sorted[1..];
      InsertionAddsOne(s, sorted[1..]);
    }
  }

  lemma {:induction false} InsertionKeepsOrder(s: Section, sorted: seq<Section>)
    requires OrderedByKind(sorted)
    ensures OrderedByKind(InsertByKind(s, sorted))
    decreases |sorted|
  {
    if !(|sorted| == 0 || s.kind < sorted[0].kind) {
      var rest := InsertByKind(s, sorted[1..]);
      InsertionKeepsOrder(s, sorted[1..]);
      InsertionAddsOne(s, sorted[1..]);
      forall x | x in rest ensures sorted[0].kind <= x.kind {
        assert x in multiset(rest);
        assert x == s || x in sorted[1..];
      }
      FirstIsLeast(sorted[0], rest);
      hide OrderedByKind;
    } else {
      forall x | x in sorted ensures s.kind <= x.kind {}
      FirstIsLeast(s, sorted);
      hide OrderedByKind;
    }
  }

  lemma {:induction false} SortingKeepsSections(sections: seq<Section>)
    ensures OrderedByKind(SortByKind(sections)) && multiset(SortByKind(sections)) == multiset(sections)
    ensures |SortByKind(sections)| == |sections|
    decreases |sections|
  {
    var n := |sections|;
    if n > 0 {
      assert sections == sections[..n - 1] + [sections[n - 1]];
      SortingKeepsSections(sections[..n - 1]);
      InsertionKeepsOrder(sections[n - 1], SortByKind(sections[..n - 1]));
      InsertionAddsOne(sections[n - 1], SortByKind(sections[..n - 1]));
      assert |multiset(SortByKind(sections))| == |multiset(sections)|;
    }
  }

  /** The writer's checks on sections ordered by kind are those of a storable list. */
  lemma {:induction false} ChecksAreStorable(sections: seq<Section>, from: nat)
    requires OrderedByKind(sections) && from <= |sections|
    ensures FirstProblem(sections, from).None?
       <==> InOrder(sections[from..], if from > 0 then sections[from - 1].kind else 0)
    decreases |sections| - from
  {
    if from < |sections| {
      ChecksAreStorable(sections, from + 1);
      assert sections[from..][1..] == sections[from + 1..];
    }
  }

  /** The writer accepts sections in any order, exactly when sorting them by kind gives a storable list; reading what it
      wrote gives that list back, which holds the very same sections. */
  lemma WrittenContainerReads(sha: Hasher, magic: U64, features: U64, source: U64, sections: seq<Section>)
    ensures
      var written, sorted := WriteContainer(sha, magic, features, source, sections), SortByKind(sections);
      && (written.Success? <==> ValidMagic(magic) && !RequiresUnknownFeature(features) && Storable(sorted))
      && multiset(sorted) == multiset(sections) && OrderedByKind(sorted)
      && (written.Success? ==>
            && |written.value| == TotalSize(sorted)
            && ReadContainer(sha, written.value, magic) == Success(Container(features, source, sorted)))
  {
    var sorted := SortByKind(sections);
    SortingKeepsSections(sections);
    ChecksAreStorable(sorted, 0);
    assert sorted[0..] == sorted;
    if Storable(sorted) && !RequiresUnknownFeature(features) {
      ContainerSurvives(sha, magic, features, source, sorted);
    }
    hide Layout, ReadContainer, SortByKind, FirstProblem, TotalSize, Payloads, OrderedByKind;
  }

  function HeaderOf(sha: Hasher, magic: U64, features: U64, source: U64, sections: seq<Section>): seq<Byte>
    requires |sections| <= MAXIMUM_SECTION_COUNT
  {
    EncodeFields(HeaderFields(magic, features, source, ENTRY_SIZE * |sections|, sha(Body(sha, sections))))
  }

  lemma MeasureShortDirectory(sha: Hasher, magic: U64, features: U64, source: U64, sections: seq<Section>, rest: seq<Byte>)
    requires Storable(sections) && !RequiresUnknownFeature(features) && |rest| < ENTRY_SIZE * |sections|
    ensures |HeaderOf(sha, magic, features, source, sections)| == HEADER_SIZE
    ensures MeasureContainer(HeaderOf(sha, magic, features, source, sections) + rest, magic) == Failure(Truncated)
  {
    HeaderSurvives(magic, features, source, ENTRY_SIZE * |sections|, sha(Body(sha, sections)), rest);
  }

  /** Header and directory in full: the measure is the written size, if that many bytes are there. */
  lemma MeasureFullDirectory(sha: Hasher, magic: U64, features: U64, source: U64, sections: seq<Section>, rest: seq<Byte>)
    requires Storable(sections) && !RequiresUnknownFeature(features)
    ensures |HeaderOf(sha, magic, features, source, sections)| == HEADER_SIZE
    ensures |Directory(sha, sections, HEADER_SIZE + ENTRY_SIZE * |sections|)| == ENTRY_SIZE * |sections|
    ensures
      var directory := Directory(sha, sections, HEADER_SIZE + ENTRY_SIZE * |sections|);
      MeasureContainer(HeaderOf(sha, magic, features, source, sections) + (directory + rest), magic)
      == if |Payloads(sections)| > |rest| then Failure(Truncated) else Success(TotalSize(sections))
  {
    hide EntryFields, EncodeFields, HeaderFields, ReadHeader, MeasureSections;
    var n := ENTRY_SIZE * |sections|;
    var directory := Directory(sha, sections, HEADER_SIZE + n);
    DirectorySize(sha, sections, HEADER_SIZE + n);
    HeaderSurvives(magic, features, source, n, sha(Body(sha, sections)), directory + rest);
    DirectoryMeasures(sha, sections, HEADER_SIZE + n, rest, 0);
  }

  /** Measuring bytes that start with a container finds its length exactly. */
  lemma ContainerMeasures(sha: Hasher, magic: U64, features: U64, source: U64, sections: seq<Section>, following: seq<Byte>)
    requires Storable(sections) && !RequiresUnknownFeature(features)
    ensures MeasureContainer(Layout(sha, magic, features, source, sections) + following, magic)
         == Success(TotalSize(sections))
  {
    var header := HeaderOf(sha, magic, features, source, sections);
    var directory := Directory(sha, sections, HEADER_SIZE + ENTRY_SIZE * |sections|);
    Associative(header, Body(sha, sections), following);
    Associative(directory, Payloads(sections), following);
    MeasureFullDirectory(sha, magic, features, source, sections, Payloads(sections) + following);
  }

  /** Every proper prefix of a container, however short, measures as truncated. */
  lemma PrefixIsTruncated(sha: Hasher, magic: U64, features: U64, source: U64, sections: seq<Section>, cut: nat)
    requires Storable(sections) && !RequiresUnknownFeature(features) && cut < TotalSize(sections)
    ensures |Layout(sha, magic, features, source, sections)| == TotalSize(sections)
    ensures MeasureContainer(Layout(sha, magic, features, source, sections)[..cut], magic) == Failure(Truncated)
  {
    var header := HeaderOf(sha, magic, features, source, sections);
    var directory := Directory(sha, sections, HEADER_SIZE + ENTRY_SIZE * |sections|);
    var body := Body(sha, sections);
    MeasureFullDirectory(sha, magic, features, source, sections, []);
    if cut < HEADER_SIZE {
      TooShortForAHeader(Layout(sha, magic, features, source, sections)[..cut], magic);
    }
    hide MeasureContainer, Directory, Payloads, EncodeFields, HeaderFields, Storable;
    if cut < HEADER_SIZE {
    } else if cut < HEADER_SIZE + |directory| {
      CutAfterHeader(header, body, cut);
      MeasureShortDirectory(sha, magic, features, source, sections, body[..cut - HEADER_SIZE]);
    } else {
      CutAfterHeader(header, body, cut);
      CutAfterHeader(directory, Payloads(sections), cut - HEADER_SIZE);
      MeasureFullDirectory(sha, magic, features, source, sections, Payloads(sections)[..cut - HEADER_SIZE - |directory|]);
    }
  }

  lemma TooShortForAHeader(bytes: seq<Byte>, magic: U64)
    requires |bytes| < HEADER_SIZE
    ensures MeasureContainer(bytes, magic) == Failure(Truncated)
  {}

  lemma CutAfterHeader(header: seq<Byte>, body: seq<Byte>, cut: nat)
    requires |header| <= cut <= |header| + |body|
    ensures (header + body)[..cut] == header + body[..cut - |header|]
  {}
}
