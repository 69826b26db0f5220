/** Which bytes are a whole container: exactly those that writing puts down. */
module ContainerForms {
  import opened Numbers
  import opened Bytes
  import opened Containers

  lemma NineFields(v: seq<nat>)
    requires |v| == 9
    ensures FieldsFrom(HEADER_WIDTHS, v)
         == [Field(8, v[0]), Field(2, v[1]), Field(2, v[2]), Field(4, v[3]), Field(8, v[4]), Field(8, v[5]),
             Field(8, v[6]), Field(8, v[7]), Field(32, v[8])]
  {}

  lemma HeaderRewrites(bytes: seq<Byte>, magic: U64)
    requires ReadHeader(bytes, magic).Success?
    ensures
      var h := ReadHeader(bytes, magic).value;
      bytes == EncodeFields(HeaderFields(magic, h.features, h.source, h.directorySize, h.digest)) + h.rest
  {
    hide EncodeFields, DecodeFields, FieldsFrom;
    FieldsRewrite(HEADER_WIDTHS, bytes);
    NineFields(DecodeFields(HEADER_WIDTHS, bytes).value.values);
  }

  lemma EightFields(v: seq<nat>)
    requires |v| == 8
    ensures FieldsFrom(ENTRY_WIDTHS, v)
         == [Field(4, v[0]), Field(4, v[1]), Field(2, v[2]), Field(2, v[3]), Field(8, v[4]), Field(8, v[5]),
             Field(8, v[6]), Field(32, v[7])]
  {}

  lemma EntryRewrites(sha: Hasher, bytes: seq<Byte>, s: Section)
    requires ReadEntry(bytes).Success?
    requires
      var e := ReadEntry(bytes).value;
      && e.codec == 0 && e.kind == s.kind && e.flags == s.flags && e.stored == e.uncompressed == |s.payload|
      && e.digest == sha(s.payload)
    ensures var e := ReadEntry(bytes).value; bytes == EncodeFields(EntryFields(sha, s, e.offset)) + e.rest
  {
    hide EncodeFields, DecodeFields, FieldsFrom;
    FieldsRewrite(ENTRY_WIDTHS, bytes);
    EightFields(DecodeFields(ENTRY_WIDTHS, bytes).value.values);
  }

  lemma OneSectionFirst(sha: Hasher, s: Section, others: seq<Section>, off: nat, previous: nat)
    ensures ([s] + others)[1..] == others
    ensures Payloads([s] + others) == s.payload + Payloads(others)
    ensures Directory(sha, [s] + others, off)
         == EncodeFields(EntryFields(sha, s, off)) + Directory(sha, others, off + |s.payload|)
    ensures previous < s.kind && |s.payload| <= MAXIMUM_SECTION_SIZE && InOrder(others, s.kind) ==>
      InOrder([s] + others, previous)
  {
    hide EncodeFields, EntryFields;
    assert ([s] + others)[1..] == others;
  }

  lemma FirstEntry(sha: Hasher, bytes: seq<Byte>, rest: seq<Byte>, count: nat, off: nat, previous: nat)
    requires count > 0 && ReadSections(sha, bytes, rest, count, off, previous).Success?
    requires MeasureSections(rest, count, off, previous).Success?
    ensures ReadEntry(rest).Success?
    ensures
      var e := ReadEntry(rest).value;
      && e.codec == 0 && e.offset == off && e.stored == e.uncompressed <= MAXIMUM_SECTION_SIZE && previous < e.kind
      && off + e.stored <= |bytes| && e.digest == sha(bytes[off..off + e.stored])
      && MeasureSections(e.rest, count - 1, off + e.stored, e.kind).Success? &&
      var others := ReadSections(sha, bytes, e.rest, count - 1, off + e.stored, e.kind);
      && others.Success?
      && ReadSections(sha, bytes, rest, count, off, previous)
         == Success([Section(e.kind, e.flags, bytes[off..off + e.stored])] + others.value)
  {
    hide ReadEntry;
  }

  /** A directory that reads, and measures without gaps, is the directory of its sections, whose payloads follow it. */
  lemma {:induction false} SectionsRewrite(sha: Hasher, bytes: seq<Byte>, rest: seq<Byte>, count: nat, off: nat, previous: nat)
    requires off <= |bytes| && ReadSections(sha, bytes, rest, count, off, previous).Success?
    requires MeasureSections(rest, count, off, previous).Success?
    ensures
      var sections := ReadSections(sha, bytes, rest, count, off, previous).value;
      && |sections| == count && InOrder(sections, previous) && bytes[off..] == Payloads(sections)
      && Directory(sha, sections, off) <= rest
    decreases count
  {
    hide EncodeFields, EntryFields, ReadEntry, InOrder, Payloads, Directory, ReadSections, MeasureSections;
    if count == 0 {
      NoEntries(sha, bytes, rest, count, off, previous);
    } else {
      FirstEntry(sha, bytes, rest, count, off, previous);
      var e := ReadEntry(rest).value;
      var payload := bytes[off..off + e.stored];
      var s := Section(e.kind, e.flags, payload);
      EntryRewrites(sha, rest, s);
      SectionsRewrite(sha, bytes, e.rest, count - 1, off + e.stored, e.kind);
      var others := ReadSections(sha, bytes, e.rest, count - 1, off + e.stored, e.kind).value;
      OneSectionFirst(sha, s, others, off, previous);
      assert bytes[off..] == payload + bytes[off + e.stored..];
      DirectoryBegins(EncodeFields(EntryFields(sha, s, off)), Directory(sha, others, off + e.stored), e.rest);
    }
  }

  lemma NoEntries(sha: Hasher, bytes: seq<Byte>, rest: seq<Byte>, count: nat, off: nat, previous: nat)
    requires count == 0 && off <= |bytes| && ReadSections(sha, bytes, rest, count, off, previous).Success?
    ensures
      var sections := ReadSections(sha, bytes, rest, count, off, previous).value;
      sections == [] && InOrder(sections, previous) && bytes[off..] == Payloads(sections) && Directory(sha, sections, off) == []
  {}

  lemma DirectoryBegins(entry: seq<Byte>, others: seq<Byte>, rest: seq<Byte>)
    requires others <= rest
    ensures entry + others <= entry + rest
  {}

  lemma WholeContainerIsALayout(sha: Hasher, bytes: seq<Byte>, magic: U64)
    requires ReadContainer(sha, bytes, magic).Success? && MeasureContainer(bytes, magic).Success?
    ensures
      var c := ReadContainer(sha, bytes, magic).value;
      && Storable(c.sections) && !RequiresUnknownFeature(c.features)
      && bytes == Layout(sha, magic, c.features, c.sourceRevision, c.sections)
  {
    hide EncodeFields, HeaderFields, DecodeFields, ReadSections, MeasureSections, Payloads, Directory, InOrder;
    var c := ReadContainer(sha, bytes, magic).value;
    var h := ReadHeader(bytes, magic).value;
    var count := h.directorySize / ENTRY_SIZE;
    var off := HEADER_SIZE + h.directorySize;
    HeaderRewrites(bytes, magic);
    HeaderRest(bytes, magic);
    SectionsRewrite(sha, bytes, h.rest, count, off, 0);
    assert h.directorySize == ENTRY_SIZE * count;
    DirectorySize(sha, c.sections, off);
    assert bytes[HEADER_SIZE..] == bytes[HEADER_SIZE..off] + bytes[off..];
    assert bytes[HEADER_SIZE..off] == Directory(sha, c.sections, off);
    assert bytes[HEADER_SIZE..] == Body(sha, c.sections);
  }

  lemma HeaderRest(bytes: seq<Byte>, magic: U64)
    requires ReadHeader(bytes, magic).Success?
    ensures |bytes| >= HEADER_SIZE && ReadHeader(bytes, magic).value.rest == bytes[HEADER_SIZE..]
  {
    hide DecodeFields;
    ShortRecordIsRefused(HEADER_WIDTHS, bytes);
    RecordWidths();
    hide TotalWidth;
  }

  /** Bytes that read as a container and measure as nothing but it are exactly what writing its sections puts down: a reader
      alone would also accept bytes no entry points to. */
  lemma WholeContainersAreLayouts(sha: Hasher, bytes: seq<Byte>, magic: U64, c: Container)
    ensures ReadContainer(sha, bytes, magic) == Success(c) && MeasureContainer(bytes, magic) == Success(|bytes|)
       <==> && Storable(c.sections) && !RequiresUnknownFeature(c.features)
            && bytes == Layout(sha, magic, c.features, c.sourceRevision, c.sections)
  {
    hide ReadContainer, MeasureContainer, Layout, Storable;
    if ReadContainer(sha, bytes, magic) == Success(c) && MeasureContainer(bytes, magic) == Success(|bytes|) {
      WholeContainerIsALayout(sha, bytes, magic);
    }
    if Storable(c.sections) && !RequiresUnknownFeature(c.features)
      && bytes == Layout(sha, magic, c.features, c.sourceRevision, c.sections) {
      ContainerSurvives(sha, magic, c.features, c.sourceRevision, c.sections);
      ContainerMeasures(sha, magic, c.features, c.sourceRevision, c.sections, []);
      assert bytes + [] == bytes;
    }
  }
}
