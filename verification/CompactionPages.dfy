/** Finest-level samples while compacting: which page answers a point, and that no other page would answer differently. */
module CompactionPages {
  import opened Numbers
  import opened ChunkKeys
  import opened EditCommands
  import opened SampleEdits
  import opened PageEdits
  import opened Bytes
  import opened Journals
  import opened JournalReplay
  import Editing = ChunkEditStates

  // ---- One page's samples by world point ----

  function AxisCoordinate(v: int, low: int, lod: U8): Option<int>
    requires lod <= MAXIMUM_LOD
  {
    CellSizeIsPositive(lod);
    var difference := v - low;
    if TruncatedRemainder(difference, CellSize(lod)) != 0 then None
    else
      var c := TruncatedQuotient(difference, CellSize(lod));
      if LatticeCoordinate(c) then Some(c) else None
  }

  /** An axis value has a lattice coordinate exactly when it is that many cells from the chunk's corner. */
  lemma AxisCoordinateIsExact(v: int, low: int, lod: U8, c: int)
    requires lod <= MAXIMUM_LOD
    ensures AxisCoordinate(v, low, lod) == Some(c) <==> LatticeCoordinate(c) && v == low + Cells(c, lod)
  {
    CellSizeIsPositive(lod);
    ScaledIsProduct(c, lod);
    var d, difference := CellSize(lod), v - low;
    WholeQuotient(difference, d, c);
  }

  lemma WholeQuotient(n: int, d: int, q: int)
    requires d > 0
    ensures TruncatedRemainder(n, d) == 0 && TruncatedQuotient(n, d) == q <==> n == q * d
  {
    var m := if n >= 0 then n else -n;
    QuotientBounds(m, d);
    var t := TruncatedQuotient(n, d);
    assert t == m / d || t == -(m / d);
    if n == q * d {
      var p := if n >= 0 then q else -q;
      assert -q * d == -(q * d);
      assert p * d == m;
      assert (m / d + 1) * d == m / d * d + d;
      MultiplesKeepOrder(p, m / d + 1, d);
      MultiplesKeepOrder(m / d, p, d);
      MultiplesKeepOrder(p, m / d, d);
    }
  }

  /** The stored place of a world point on a page. */
  function PlaceOnPage(key: ChunkKey, p: GridPoint): Option<nat>
    requires key.lod <= MAXIMUM_LOD
  {
    var low := ChunkBounds(key).minimum;
    var x, y, z := AxisCoordinate(p.x, low.x, key.lod), AxisCoordinate(p.y, low.y, key.lod),
                   AxisCoordinate(p.z, low.z, key.lod);
    if x.None? || y.None? || z.None? then None
    else
      assert SampleIndex(x.value, y.value, z.value) >= 0;
      Some(SampleIndex(x.value, y.value, z.value))
  }

  /** A point is on a page's padded lattice exactly when some stored sample lies there, and that is the one read. */
  lemma PlaceOnPageIsExact(key: ChunkKey, p: GridPoint, i: nat)
    requires key.lod <= MAXIMUM_LOD && i < SAMPLE_COUNT
    ensures PlaceOnPage(key, p) == Some(i) <==> PointAt(key, i) == p
    ensures PlaceOnPage(key, p).Some? ==> PlaceOnPage(key, p).value < SAMPLE_COUNT
                                          && PointAt(key, PlaceOnPage(key, p).value) == p
  {
    var low := ChunkBounds(key).minimum;
    var x, y, z := CoordinatesOfIndex(i);
    IndexOfCoordinates(key, x, y, z);
    AxisCoordinateIsExact(p.x, low.x, key.lod, x);
    AxisCoordinateIsExact(p.y, low.y, key.lod, y);
    AxisCoordinateIsExact(p.z, low.z, key.lod, z);
    var ax, ay, az := AxisCoordinate(p.x, low.x, key.lod), AxisCoordinate(p.y, low.y, key.lod),
                      AxisCoordinate(p.z, low.z, key.lod);
    hide AxisCoordinate, Cells, ChunkBounds, SampleIndex, PointAt;
    if ax.Some? && ay.Some? && az.Some? {
      AxisCoordinateIsExact(p.x, low.x, key.lod, ax.value);
      AxisCoordinateIsExact(p.y, low.y, key.lod, ay.value);
      AxisCoordinateIsExact(p.z, low.z, key.lod, az.value);
      IndexOfCoordinates(key, ax.value, ay.value, az.value);
      SameIndexSamePlace(x, y, z, ax.value, ay.value, az.value);
    }
  }

  lemma SameIndexSamePlace(x: int, y: int, z: int, a: int, b: int, c: int)
    requires LatticeCoordinate(x) && LatticeCoordinate(y) && LatticeCoordinate(z)
    requires LatticeCoordinate(a) && LatticeCoordinate(b) && LatticeCoordinate(c)
    ensures SampleIndex(x, y, z) == SampleIndex(a, b, c) <==> x == a && y == b && z == c
  {
    SameDigits(x + 1, a + 1, (z + 1) * SAMPLES_PER_AXIS + y + 1, (c + 1) * SAMPLES_PER_AXIS + b + 1);
    SameDigits(y + 1, b + 1, z + 1, c + 1);
  }

  lemma SameDigits(low: nat, low': nat, high: int, high': int)
    requires low < SAMPLES_PER_AXIS && low' < SAMPLES_PER_AXIS
    ensures high * SAMPLES_PER_AXIS + low == high' * SAMPLES_PER_AXIS + low' <==> high == high' && low == low'
  {}

  // ---- What one page decodes and replays to ----

  datatype BakedPage = BakedPage(key: ChunkKey, hash: Digest, bytes: seq<Byte>)

  datatype IndexEntry = IndexEntry(size: nat, hash: Digest)

  datatype Body = Body(samples: seq<ScalarSample>, waterSummaryValid: bool, shiftValid: bool)

  /** One compaction's inputs. Opening and decoding page bytes are given functions. */
  datatype Snapshot = Snapshot(
    sha: Hasher, ar: Arithmetic, pages: seq<BakedPage>, index: ChunkKey -> Option<IndexEntry>,
    openMetadata: seq<Byte> -> Option<Editing.PageMetadata>, decodeBody: seq<Byte> -> Option<Body>,
    sourceRevision: U64, worldRevision: U64, journal: JournalState)

  /** The first page with the key. */
  function FindBaked(pages: seq<BakedPage>, key: ChunkKey): Option<BakedPage> {
    if |pages| == 0 then None else if pages[0].key == key then Some(pages[0]) else FindBaked(pages[1..], key)
  }

  predicate ValidWorldPage(s: Snapshot, key: ChunkKey, bytes: seq<Byte>) {
    var entry, metadata := s.index(key), s.openMetadata(bytes);
    && entry.Some? && |bytes| == entry.value.size && s.sha(bytes) == entry.value.hash
    && metadata.Some? && metadata.value.key == key && metadata.value.sourceRevision == s.sourceRevision
  }

  /** The page as stored, if every check passes. */
  function StoredPage(s: Snapshot, key: ChunkKey): Option<Editing.Page> {
    var baked := FindBaked(s.pages, key);
    if baked.None? || baked.value.hash != s.sha(baked.value.bytes) || !ValidWorldPage(s, key, baked.value.bytes) then None
    else
      var body := s.decodeBody(baked.value.bytes);
      if body.None? then None
      else
        Some(Editing.Page(s.openMetadata(baked.value.bytes).value, body.value.samples, body.value.waterSummaryValid,
                          body.value.shiftValid))
  }

  ghost function Initial(s: Snapshot, key: ChunkKey): Option<PageState> {
    var page := StoredPage(s, key);
    if page.None? || Editing.InitialStatus(page.value, s.sourceRevision, None) != EditStatus.Ok then None
    else Some(Editing.InitialState(page.value, s.worldRevision, None))
  }

  /** The page after the whole journal: what an uncached lookup returns. */
  ghost function Recompute(s: Snapshot, key: ChunkKey): Option<PageState> {
    var initial := Initial(s, key);
    if initial.None? then None
    else
      var r := Replay(s.ar, initial.value, CommandsOf(s.journal.transactions));
      if r.status != EditStatus.Ok || r.state.revision != s.journal.currentRevision then None else Some(r.state)
  }

  lemma RecomputedPage(s: Snapshot, key: ChunkKey)
    requires Recompute(s, key).Some?
    ensures Initial(s, key).Some? && WellFormed(Initial(s, key).value) && Initial(s, key).value.key == key
    ensures Initial(s, key).value.protection == Open && Initial(s, key).value.revision == s.worldRevision
    ensures WellFormed(Recompute(s, key).value) && Recompute(s, key).value.key == key
  {
    hide FindBaked, Replay, FiniteDensities;
    ReplayKeepsShape(s.ar, Initial(s, key).value, CommandsOf(s.journal.transactions));
  }

  lemma {:induction false} ReplayKeepsShape(ar: Arithmetic, st: PageState, commands: seq<EditCommand>)
    requires WellFormed(st)
    ensures WellFormed(Replay(ar, st, commands).state) && Replay(ar, st, commands).state.key == st.key
    decreases |commands|
  {
    hide ValidCommand, MayIntersectPage;
    if |commands| > 0 {
      StepKeepsShape(ar, st, commands[0]);
      ReplayKeepsShape(ar, ApplyCommand(ar, st, commands[0]).state, commands[1..]);
    }
  }

  lemma StepKeepsShape(ar: Arithmetic, st: PageState, c: EditCommand)
    requires WellFormed(st)
    ensures WellFormed(ApplyCommand(ar, st, c).state) && ApplyCommand(ar, st, c).state.key == st.key
  {
    hide ValidCommand, MayIntersectPage, Hull;
  }

  /** The check against the journal's head never refuses a page: when the page starts at the journal's first revision, a
      replay that is accepted ends at the head. */
  lemma RevisionCheckIsNeverTheReason(s: Snapshot, limits: Limits, key: ChunkKey)
    requires Sound(s.sha, limits, s.journal) && s.journal.initialized && s.worldRevision == s.journal.initialRevision
    requires Initial(s, key).Some?
    ensures Recompute(s, key).Some?
       <==> Replay(s.ar, Initial(s, key).value, CommandsOf(s.journal.transactions)).status == EditStatus.Ok
  {
    var j, st := s.journal, Initial(s, key).value;
    assert Between(j, j.initialRevision, j.currentRevision) == j.transactions;
    assert st.revision == s.worldRevision;
    hide Sound, Replay, CommandsOf, FindBaked, Initial;
    PageFollowsJournal(s.ar, s.sha, limits, j, st, j.initialRevision, j.currentRevision);
  }

  // ---- The probe over neighbouring pages ----

  function FloorBase(v: int): int { FloorDivide(v, CELLS_PER_AXIS) }

  /** Neighbours are tried in the order 0, -1, 1 on each axis. */
  function Offset(k: nat): int {
    if k % 3 == 0 then 0 else if k % 3 == 1 then -1 else 1
  }

  predicate Key32(x: int, y: int, z: int) {
    I32_MIN <= x <= I32_MAX && I32_MIN <= y <= I32_MAX && I32_MIN <= z <= I32_MAX
  }

  /** The k-th key tried: x varies fastest, then y, then z; none if it leaves the 32-bit range. */
  function Candidate(p: GridPoint, k: nat): Option<ChunkKey> {
    var x, y, z := FloorBase(p.x) + Offset(k), FloorBase(p.y) + Offset(k / 3), FloorBase(p.z) + Offset(k / 9);
    if Key32(x, y, z) then Some(ChunkKey(x, y, z, 0)) else None
  }

  /** What the candidate page answers for the point. */
  ghost function CandidateSample(s: Snapshot, p: GridPoint, k: nat): Option<ScalarSample> {
    var key := Candidate(p, k);
    if key.None? || Recompute(s, key.value).None? then None
    else
      RecomputedPage(s, key.value);
      var i := PlaceOnPage(key.value, p);
      if i.None? then None
      else
        PlaceOnPageIsExact(key.value, p, i.value % SAMPLE_COUNT);
        Some(Recompute(s, key.value).value.samples[i.value])
  }

  /** The first candidate from k on that answers. */
  ghost function Probe(s: Snapshot, p: GridPoint, k: nat): Option<ScalarSample>
    requires k <= 27
    decreases 27 - k
  {
    if k == 27 then None
    else if CandidateSample(s, p, k).Some? then CandidateSample(s, p, k)
    else Probe(s, p, k + 1)
  }

  lemma {:induction false} ProbeTriesAll(s: Snapshot, p: GridPoint, k: nat) returns (n: nat)
    requires k <= 27
    ensures Probe(s, p, k).Some? ==> k <= n < 27 && CandidateSample(s, p, n) == Probe(s, p, k)
    ensures Probe(s, p, k).None? ==> forall m :: k <= m < 27 ==> CandidateSample(s, p, m).None?
    decreases 27 - k
  {
    hide CandidateSample;
    n := k;
    if k < 27 && CandidateSample(s, p, k).None? {
      n := ProbeTriesAll(s, p, k + 1);
    }
  }

  /** The page can be loaded, is of the finest level, and has a stored sample at the point. */
  ghost predicate Answers(s: Snapshot, key: ChunkKey, p: GridPoint) {
    key.lod == 0 && Recompute(s, key).Some? && PlaceOnPage(key, p).Some?
  }

  /** A key whose padded lattice reaches an axis value is the value's own chunk or one beside it. */
  lemma AxisNeighbour(v: int, key: int, c: int) returns (n: nat)
    requires LatticeCoordinate(c) && v == 16 * key + c
    ensures n < 3 && key == FloorBase(v) + Offset(n)
  {
    FloorDivideIsFloor(v, CELLS_PER_AXIS);
    var offset := key - FloorBase(v);
    n := if offset == 0 then 0 else if offset == -1 then 1 else 2;
  }

  lemma PointOfFinestPage(key: ChunkKey, p: GridPoint) returns (x: int, y: int, z: int)
    requires key.lod == 0 && PlaceOnPage(key, p).Some?
    ensures LatticeCoordinate(x) && LatticeCoordinate(y) && LatticeCoordinate(z)
    ensures p == GridPoint(16 * key.x + x, 16 * key.y + y, 16 * key.z + z)
  {
    var i := PlaceOnPage(key, p).value;
    PlaceOnPageIsExact(key, p, 0);
    x, y, z := CoordinatesOfIndex(i);
    IndexOfCoordinates(key, x, y, z);
    FinestLattice(key, x, y, z);
  }

  /** Every finest-level page with the point on its padded lattice is among the candidates. */
  lemma AnsweringPageIsACandidate(key: ChunkKey, p: GridPoint) returns (k: nat)
    requires key.lod == 0 && PlaceOnPage(key, p).Some?
    ensures k < 27 && Candidate(p, k) == Some(key)
  {
    hide PlaceOnPage, FloorBase, Offset;
    var x, y, z := PointOfFinestPage(key, p);
    var a := AxisNeighbour(p.x, key.x, x);
    var b := AxisNeighbour(p.y, key.y, y);
    var c := AxisNeighbour(p.z, key.z, z);
    k := a + 3 * b + 9 * c;
    OffsetsDecode(a, b, c);
  }

  lemma OffsetsDecode(a: nat, b: nat, c: nat)
    requires a < 3 && b < 3 && c < 3
    ensures
      var k := a + 3 * b + 9 * c;
      k < 27 && Offset(k) == Offset(a) && Offset(k / 3) == Offset(b) && Offset(k / 9) == Offset(c)
  {}

  /** The probe answers a point exactly when some finest-level page that can be loaded stores a sample there, and then
      with such a page's replayed sample. */
  lemma ProbeIsComplete(s: Snapshot, p: GridPoint)
    ensures Probe(s, p, 0).Some? <==> exists key :: Answers(s, key, p)
    ensures Probe(s, p, 0).Some? ==> exists key :: Answers(s, key, p) && SampleOf(s, key, p) == Probe(s, p, 0)
  {
    hide Probe, Recompute, PlaceOnPage;
    var n := ProbeTriesAll(s, p, 0);
    if key :| Answers(s, key, p) {
      var k := AnsweringPageIsACandidate(key, p);
      assert CandidateSample(s, p, k).Some?;
    }
    if Probe(s, p, 0).Some? {
      var key := Candidate(p, n).value;
      assert Answers(s, key, p) && SampleOf(s, key, p) == CandidateSample(s, p, n);
    }
  }

  ghost function SampleOf(s: Snapshot, key: ChunkKey, p: GridPoint): Option<ScalarSample>
    requires Answers(s, key, p)
  {
    RecomputedPage(s, key);
    PlaceOnPageIsExact(key, p, 0);
    Some(Recompute(s, key).value.samples[PlaceOnPage(key, p).value])
  }

  /** The stored sample of a page at the point, before any edit. */
  ghost function StoredSample(s: Snapshot, key: ChunkKey, p: GridPoint): ScalarSample
    requires Answers(s, key, p)
  {
    RecomputedPage(s, key);
    PlaceOnPageIsExact(key, p, 0);
    Initial(s, key).value.samples[PlaceOnPage(key, p).value]
  }

  /** The order of the probe does not matter: if the pages that store a sample at the point store the same one, and no
      brush is exactly tangent there, then whichever page answers, the answer is that one sample replayed. */
  lemma ProbeOrderIsIrrelevant(s: Snapshot, key: ChunkKey, p: GridPoint)
    requires Answers(s, key, p)
    requires forall other :: Answers(s, other, p) ==> StoredSample(s, other, p) == StoredSample(s, key, p)
    requires forall c :: c in CommandsOf(s.journal.transactions) ==> !Tangent(c, p)
    ensures Probe(s, p, 0)
         == Some(PointReplay(s.ar, Open, CommandsOf(s.journal.transactions), p, StoredSample(s, key, p)))
  {
    ProbeIsComplete(s, p);
    var other :| Answers(s, other, p) && SampleOf(s, other, p) == Probe(s, p, 0);
    RecomputedPage(s, other);
    PlaceOnPageIsExact(other, p, 0);
    hide Answers, Tangent, PlaceOnPage, CommandsOf, Initial, PointReplay, Probe;
    ReplayIsPointwise(s.ar, Initial(s, other).value, CommandsOf(s.journal.transactions), PlaceOnPage(other, p).value);
  }
}
