/** The stored form of an edit transaction: self-hashed command records between a header and a commit footer. */
module TransactionCodec {
  import opened Numbers
  import opened Floats
  import opened ChunkKeys
  import opened EditCommands
  import opened Bytes

  const SCHEMA_MAJOR := 1
  const SCHEMA_MINOR := 4
  const HEADER_RECORD_SIZE := 64
  const COMMIT_SIZE := 68
  const COMMAND_SECTION_HEADER_SIZE := 8
  const COMMAND_HEADER_SIZE := 108
  const RECORD_HASH_SIZE := 32

  function PayloadSize(shape: U16): nat {
    if shape == SPHERE then 32 else if shape == AXIS_ALIGNED_BOX then 48 else 0
  }

  function RecordSize(shape: U16): nat {
    COMMAND_HEADER_SIZE + PayloadSize(shape) + RECORD_HASH_SIZE
  }

  // ---- One command record ----

  function BoundsFields(b: Box3): seq<Field> {
    [Field(8, Unsigned64(b.minimum.x)), Field(8, Unsigned64(b.minimum.y)), Field(8, Unsigned64(b.minimum.z)),
     Field(8, Unsigned64(b.maximum.x)), Field(8, Unsigned64(b.maximum.y)), Field(8, Unsigned64(b.maximum.z))]
  }

  const BOUNDS_WIDTHS: seq<nat> := [8, 8, 8, 8, 8, 8]

  function CommandFieldsAt(c: EditCommand, minor: U16): seq<Field> {
    [Field(4, RecordSize(c.shape)), Field(2, SCHEMA_MAJOR), Field(2, minor), Field(16, c.id),
     Field(4, c.sequence), Field(8, c.worldRevision), Field(2, c.operation), Field(2, c.shape), Field(4, c.flags),
     Field(4, c.density), Field(2, c.material), Field(2, 0)]
  }

  function CommandFields(c: EditCommand): seq<Field> { CommandFieldsAt(c, SCHEMA_MINOR) }

  const COMMAND_WIDTHS: seq<nat> := [4, 2, 2, 16, 4, 8, 2, 2, 4, 4, 2, 2]

  function TailFields(c: EditCommand): seq<Field> {
    [Field(4, PayloadSize(c.shape)), Field(4, c.smoothRadius)]
  }

  const TAIL_WIDTHS: seq<nat> := [4, 4]

  function SphereFields(s: Sphere): seq<Field> {
    [Field(8, Unsigned64(s.centerX)), Field(8, Unsigned64(s.centerY)), Field(8, Unsigned64(s.centerZ)), Field(8, s.radius)]
  }

  const SPHERE_WIDTHS: seq<nat> := [8, 8, 8, 8]

  function BoxFields(b: AxisBox): seq<Field> {
    BoundsFields(Box3(GridPoint(b.minimumX, b.minimumY, b.minimumZ), GridPoint(b.maximumX, b.maximumY, b.maximumZ)))
  }

  function ShapeFields(c: EditCommand): seq<Field> {
    if c.shape == SPHERE then SphereFields(c.sphere) else BoxFields(c.box)
  }

  /** What a record of schema 1.minor says before its digest. */
  function ContentAt(c: EditCommand, minor: U16): seq<Byte> {
    EncodeFields(CommandFieldsAt(c, minor)) + (EncodeFields(BoundsFields(c.bounds))
      + (EncodeFields(TailFields(c)) + EncodeFields(ShapeFields(c))))
  }

  function CommandContent(c: EditCommand): seq<Byte> { ContentAt(c, SCHEMA_MINOR) }

  function RecordAt(sha: Hasher, c: EditCommand, minor: U16): seq<Byte> {
    ContentAt(c, minor) + LittleEndian(RECORD_HASH_SIZE, sha(ContentAt(c, minor)))
  }

  /** The record as it is written, in the latest schema. */
  function CommandBytes(sha: Hasher, c: EditCommand): seq<Byte> { RecordAt(sha, c, SCHEMA_MINOR) }

  /** What a schema can say: no smoothing before 1.2, no material on construction in 1.0, no water removal before 1.4. */
  predicate InSchema(c: EditCommand, minor: U16) {
    && minor <= SCHEMA_MINOR && (c.smoothRadius != 0 ==> minor >= 2)
    && (c.operation == SDF_CONSTRUCT && c.material != 0 ==> minor >= 1)
    && (c.operation == REMOVE_STATIC_WATER ==> minor >= 4)
  }

  /** The six signed coordinates of a box at the front of the bytes. */
  datatype BoxRead = BoxRead(box: AxisBox, rest: seq<Byte>)

  function ReadBox(bytes: seq<Byte>): Option<BoxRead> {
    var d := DecodeFields(BOUNDS_WIDTHS, bytes);
    if d.None? then None
    else
      var v := d.value.values;
      Some(BoxRead(AxisBox(Signed64(v[0]), Signed64(v[1]), Signed64(v[2]), Signed64(v[3]), Signed64(v[4]), Signed64(v[5])),
                   d.value.rest))
  }

  datatype SphereRead = SphereRead(sphere: Sphere, rest: seq<Byte>)

  function ReadSphere(bytes: seq<Byte>): Option<SphereRead> {
    var d := DecodeFields(SPHERE_WIDTHS, bytes);
    if d.None? then None
    else
      var v := d.value.values;
      Some(SphereRead(Sphere(Signed64(v[0]), Signed64(v[1]), Signed64(v[2]), v[3]), d.value.rest))
  }

  function BoxAsBounds(b: AxisBox): Box3 {
    Box3(GridPoint(b.minimumX, b.minimumY, b.minimumZ), GridPoint(b.maximumX, b.maximumY, b.maximumZ))
  }

  /** The fixed part of a record, before its payload is known. */
  datatype RecordHead = RecordHead(recordSize: U32, major: U16, minor: U16, id: U128, sequence: U32, worldRevision: U64,
                                   operation: U16, shape: U16, flags: U32, density: Float, material: U16, reserved: U16,
                                   rest: seq<Byte>)

  function ReadHead(bytes: seq<Byte>): Option<RecordHead> {
    var d := DecodeFields(COMMAND_WIDTHS, bytes);
    if d.None? then None
    else
      var v := d.value.values;
      Some(RecordHead(v[0], v[1], v[2], v[3], v[4], v[5], v[6], v[7], v[8], v[9], v[10], v[11], d.value.rest))
  }

  datatype RecordTail = RecordTail(payloadSize: U32, smooth: U32, rest: seq<Byte>)

  function ReadTail(bytes: seq<Byte>): Option<RecordTail> {
    var d := DecodeFields(TAIL_WIDTHS, bytes);
    if d.None? then None else Some(RecordTail(d.value.values[0], d.value.values[1], d.value.rest))
  }

  /** Older schemas: no smoothing before 1.2, no material on construction in 1.0, no water removal before 1.4. */
  predicate AllowedBySchema(h: RecordHead, smooth: U32) {
    && h.major == SCHEMA_MAJOR && h.minor <= SCHEMA_MINOR
    && !(h.minor < 4 && h.operation == REMOVE_STATIC_WATER)
    && !(h.minor == 0 && h.operation == SDF_CONSTRUCT && h.material != 0)
    && h.reserved == 0 && !(h.minor < 2 && smooth != 0)
  }

  function Assemble(h: RecordHead, bounds: Box3, smooth: U32, sphere: Sphere, box: AxisBox): EditCommand {
    EditCommand(h.id, h.sequence, h.worldRevision, h.operation, h.shape, h.flags, h.density,
                if h.minor >= 2 then smooth else 0, h.material, bounds, sphere, box)
  }

  function OnlyValid(c: EditCommand): Option<EditCommand> {
    if ValidCommand(c) then Some(c) else None
  }

  function DecodeContent(content: seq<Byte>, recordSize: nat): Option<EditCommand> {
    var h := ReadHead(content);
    if h.None? then None
    else
      var b := ReadBox(h.value.rest);
      if b.None? then None
      else
        var t := ReadTail(b.value.rest);
        if t.None? then None
        else if h.value.recordSize != recordSize || !AllowedBySchema(h.value, t.value.smooth)
                || t.value.payloadSize != PayloadSize(h.value.shape) || |t.value.rest| != t.value.payloadSize then None
        else DecodeShape(h.value, BoxAsBounds(b.value.box), t.value.smooth, t.value.rest)
  }

  function DecodeShape(h: RecordHead, bounds: Box3, smooth: U32, payload: seq<Byte>): Option<EditCommand> {
    if h.shape == SPHERE then
      var s := ReadSphere(payload);
      if s.None? || s.value.rest != [] then None else OnlyValid(Assemble(h, bounds, smooth, s.value.sphere, NO_BOX))
    else if h.shape == AXIS_ALIGNED_BOX then
      var x := ReadBox(payload);
      if x.None? || x.value.rest != [] then None else OnlyValid(Assemble(h, bounds, smooth, NO_SPHERE, x.value.box))
    else None
  }

  function DecodeCommand(sha: Hasher, bytes: seq<Byte>): Option<EditCommand> {
    if |bytes| < COMMAND_HEADER_SIZE + RECORD_HASH_SIZE then None
    else
      var content := bytes[..|bytes| - RECORD_HASH_SIZE];
      if LittleEndian(RECORD_HASH_SIZE, sha(content)) != bytes[|bytes| - RECORD_HASH_SIZE..] then None
      else DecodeContent(content, |bytes|)
  }

  /** A command with the payload of the other shape cleared: what a record can say about it. */
  function Stored(c: EditCommand): EditCommand {
    if c.shape == SPHERE then c.(box := NO_BOX) else c.(sphere := NO_SPHERE)
  }

  // ---- Record round trip ----

  predicate Coordinates64(b: Box3) {
    && I64_MIN <= b.minimum.x <= I64_MAX && I64_MIN <= b.minimum.y <= I64_MAX && I64_MIN <= b.minimum.z <= I64_MAX
    && I64_MIN <= b.maximum.x <= I64_MAX && I64_MIN <= b.maximum.y <= I64_MAX && I64_MIN <= b.maximum.z <= I64_MAX
  }

  lemma BoundsShape(b: Box3)
    ensures
      var fields := BoundsFields(b);
      && FieldsFit(fields) && WidthsOf(fields) == BOUNDS_WIDTHS
      && ValuesOf(fields) == [Unsigned64(b.minimum.x), Unsigned64(b.minimum.y), Unsigned64(b.minimum.z),
                              Unsigned64(b.maximum.x), Unsigned64(b.maximum.y), Unsigned64(b.maximum.z)]
    ensures |EncodeFields(BoundsFields(b))| == 48
  {
    EncodedSize(BoundsFields(b));
    assert WidthsOf(BoundsFields(b)) == BOUNDS_WIDTHS;
    assert TotalWidth([8, 8, 8]) == 24;
    assert TotalWidth(BOUNDS_WIDTHS) == 48;
  }

  lemma BoundsSurvive(b: Box3, tail: seq<Byte>)
    requires Coordinates64(b)
    ensures ReadBox(EncodeFields(BoundsFields(b)) + tail)
         == Some(BoxRead(AxisBox(b.minimum.x, b.minimum.y, b.minimum.z, b.maximum.x, b.maximum.y, b.maximum.z), tail))
  {
    BoundsShape(b);
    FieldsSurvive(BoundsFields(b), tail);
    hide EncodeFields, BoundsFields, DecodeFields, WidthsOf, ValuesOf, FieldsFit, Unsigned64, Signed64;
    SignSurvives(b.minimum.x);
    SignSurvives(b.minimum.y);
    SignSurvives(b.minimum.z);
    SignSurvives(b.maximum.x);
    SignSurvives(b.maximum.y);
    SignSurvives(b.maximum.z);
  }

  lemma SphereShape(s: Sphere)
    ensures
      var fields := SphereFields(s);
      && FieldsFit(fields) && WidthsOf(fields) == SPHERE_WIDTHS
      && ValuesOf(fields) == [Unsigned64(s.centerX), Unsigned64(s.centerY), Unsigned64(s.centerZ), s.radius]
    ensures |EncodeFields(SphereFields(s))| == 32
  {
    EncodedSize(SphereFields(s));
    assert WidthsOf(SphereFields(s)) == SPHERE_WIDTHS;
    assert TotalWidth(SPHERE_WIDTHS) == 32;
  }

  lemma SphereSurvives(s: Sphere, tail: seq<Byte>)
    ensures ReadSphere(EncodeFields(SphereFields(s)) + tail) == Some(SphereRead(s, tail))
  {
    SphereShape(s);
    FieldsSurvive(SphereFields(s), tail);
    hide EncodeFields, SphereFields, DecodeFields, WidthsOf, ValuesOf, FieldsFit, Unsigned64, Signed64;
    SignSurvives(s.centerX);
    SignSurvives(s.centerY);
    SignSurvives(s.centerZ);
  }

  lemma HeadFits(c: EditCommand, minor: U16)
    ensures FieldsFit(CommandFieldsAt(c, minor))
  {}

  lemma HeadShape(c: EditCommand, minor: U16)
    ensures
      var fields := CommandFieldsAt(c, minor);
      && WidthsOf(fields) == COMMAND_WIDTHS
      && ValuesOf(fields) == [RecordSize(c.shape), SCHEMA_MAJOR, minor, c.id, c.sequence, c.worldRevision,
                              c.operation, c.shape, c.flags, c.density, c.material, 0]
  {
    hide RecordSize;
  }

  lemma HeadSize(c: EditCommand, minor: U16)
    ensures |EncodeFields(CommandFieldsAt(c, minor))| == 52
  {
    HeadShape(c, minor);
    CommandWidth();
    hide EncodeFields, CommandFieldsAt, WidthsOf, ValuesOf, TotalWidth;
    EncodedSize(CommandFieldsAt(c, minor));
  }

  lemma CommandWidth()
    ensures TotalWidth(COMMAND_WIDTHS) == 52
  {
    LastWidths();
    assert TotalWidth(COMMAND_WIDTHS) == 24 + TotalWidth(COMMAND_WIDTHS[4..]);
    assert COMMAND_WIDTHS[4..] == [4, 8, 2, 2, 4, 4, 2, 2];
  }

  lemma LastWidths()
    ensures TotalWidth([4, 8, 2, 2, 4, 4, 2, 2]) == 28
  {
    assert TotalWidth([4, 4, 2, 2]) == 12;
  }

  lemma HeadSurvives(c: EditCommand, minor: U16, tail: seq<Byte>)
    ensures ReadHead(EncodeFields(CommandFieldsAt(c, minor)) + tail)
         == Some(RecordHead(RecordSize(c.shape), SCHEMA_MAJOR, minor, c.id, c.sequence, c.worldRevision,
                            c.operation, c.shape, c.flags, c.density, c.material, 0, tail))
  {
    HeadFits(c, minor);
    HeadShape(c, minor);
    FieldsSurvive(CommandFieldsAt(c, minor), tail);
    hide EncodeFields, CommandFieldsAt, DecodeFields, WidthsOf, ValuesOf, FieldsFit;
  }

  lemma TailSurvives(c: EditCommand, tail: seq<Byte>)
    ensures |EncodeFields(TailFields(c))| == 8
    ensures ReadTail(EncodeFields(TailFields(c)) + tail) == Some(RecordTail(PayloadSize(c.shape), c.smoothRadius, tail))
  {
    var fields := TailFields(c);
    EncodedSize(fields);
    assert WidthsOf(fields) == TAIL_WIDTHS && ValuesOf(fields) == [PayloadSize(c.shape), c.smoothRadius];
    assert TotalWidth(TAIL_WIDTHS) == 8;
    FieldsSurvive(fields, tail);
    hide EncodeFields, TailFields, DecodeFields, WidthsOf, ValuesOf, FieldsFit;
  }

  lemma StoredIsValid(c: EditCommand)
    requires ValidCommand(c)
    ensures ValidCommand(Stored(c))
  {}

  lemma ShapeSurvives(c: EditCommand)
    requires ValidCommand(c)
    ensures |EncodeFields(ShapeFields(c))| == PayloadSize(c.shape)
    ensures c.shape == SPHERE ==> ReadSphere(EncodeFields(ShapeFields(c))) == Some(SphereRead(c.sphere, []))
    ensures c.shape != SPHERE ==> ReadBox(EncodeFields(ShapeFields(c))) == Some(BoxRead(c.box, []))
  {
    hide EncodeFields, SphereFields, BoundsFields, ReadSphere, ReadBox;
    var bytes := EncodeFields(ShapeFields(c));
    assert bytes + [] == bytes;
    if c.shape == SPHERE {
      SphereShape(c.sphere);
      SphereSurvives(c.sphere, []);
    } else {
      BoundsShape(BoxAsBounds(c.box));
      BoundsSurvive(BoxAsBounds(c.box), []);
    }
  }

  lemma ContentSurvives(c: EditCommand, minor: U16)
    requires ValidCommand(c)
    ensures |ContentAt(c, minor)| == COMMAND_HEADER_SIZE + PayloadSize(c.shape)
    ensures InSchema(c, minor) ==> DecodeContent(ContentAt(c, minor), RecordSize(c.shape)) == Some(Stored(c))
  {
    hide EncodeFields, CommandFieldsAt, BoundsFields, TailFields, ShapeFields, ReadHead, ReadBox, ReadTail, ReadSphere,
         ExpectedBounds, SphereBounds, BoxBounds;
    var payload := EncodeFields(ShapeFields(c));
    var tail := EncodeFields(TailFields(c)) + payload;
    var bounds := EncodeFields(BoundsFields(c.bounds)) + tail;
    ValidBoundsAreOrdered(c);
    StoredIsValid(c);
    HeadSize(c, minor);
    HeadSurvives(c, minor, bounds);
    BoundsShape(c.bounds);
    BoundsSurvive(c.bounds, tail);
    TailSurvives(c, payload);
    ShapeSurvives(c);
  }

  lemma RecordSurvives(sha: Hasher, c: EditCommand, minor: U16)
    requires ValidCommand(c)
    ensures |RecordAt(sha, c, minor)| == RecordSize(c.shape)
    ensures InSchema(c, minor) ==> DecodeCommand(sha, RecordAt(sha, c, minor)) == Some(Stored(c))
  {
    hide ContentAt, DecodeContent, LittleEndian, ValidCommand, Stored, InSchema;
    ContentSurvives(c, minor);
    var content := ContentAt(c, minor);
    var bytes := RecordAt(sha, c, minor);
    assert bytes[..|bytes| - RECORD_HASH_SIZE] == content;
    assert bytes[|bytes| - RECORD_HASH_SIZE..] == LittleEndian(RECORD_HASH_SIZE, sha(content));
  }

  /** A stored command reads back as itself; its record is exactly 108 bytes, payload and digest. */
  lemma CommandSurvives(sha: Hasher, c: EditCommand)
    requires ValidCommand(c)
    ensures |CommandBytes(sha, c)| == RecordSize(c.shape)
    ensures DecodeCommand(sha, CommandBytes(sha, c)) == Some(Stored(c))
  {
    hide RecordAt, DecodeCommand, ValidCommand, Stored;
    RecordSurvives(sha, c, SCHEMA_MINOR);
  }
}
