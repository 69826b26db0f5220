/** The grid read from files through a direct-mapped block cache, against the grid held in memory. */
module CachedGrids {
  import opened Numbers
  import opened Floats
  import opened ChunkKeys
  import opened Bytes
  import opened DenseGrids

  const BLOCK_SAMPLES := 64
  const CACHE_SLOTS := 512
  const ROW_HASH := 1315423911
  const NONE := 0xFFFF_FFFF_FFFF_FFFF

  /** The files a grid is read from; they are not written while it is open. */
  datatype Files = Files(d: Descriptor, densities: seq<Byte>, materials: Option<seq<Byte>>)

  /** Both files hold exactly the grid's samples, and the byte count fits a machine word. */
  predicate ExactFiles(f: Files) {
    && ValidDescriptor(f.d) && 4 * SampleCount(f.d) < U64_COUNT
    && |f.densities| == 4 * SampleCount(f.d)
    && (f.materials.Some? ==> |f.materials.value| == 2 * SampleCount(f.d))
  }

  // ---- The data in the files ----

  function Number32(bytes: seq<Byte>, i: nat): Float
    requires 4 * i + 4 <= |bytes|
  {
    NumberFits(bytes[4 * i..4 * i + 4]);
    LimitIsByteLimit(4);
    FromLittleEndian(bytes[4 * i..4 * i + 4])
  }

  function Number16(bytes: seq<Byte>, i: nat): U16
    requires 2 * i + 2 <= |bytes|
  {
    NumberFits(bytes[2 * i..2 * i + 2]);
    LimitIsByteLimit(2);
    FromLittleEndian(bytes[2 * i..2 * i + 2])
  }

  /** The densities and materials the files hold, as an in-memory grid would be given them. */
  function DensitiesOf(f: Files): (r: seq<Float>)
    requires ExactFiles(f)
    ensures |r| == SampleCount(f.d)
  {
    seq(SampleCount(f.d), i requires 0 <= i < SampleCount(f.d) => Number32(f.densities, i))
  }

  function MaterialsOf(f: Files): (r: seq<U16>)
    requires ExactFiles(f)
    ensures |r| == if f.materials.Some? then SampleCount(f.d) else 0
  {
    if f.materials.None? then []
    else seq(SampleCount(f.d), i requires 0 <= i < SampleCount(f.d) => Number16(f.materials.value, i))
  }

  /** Numbers of one width, one after another. */
  function Stored(width: nat, values: seq<nat>): seq<Byte> {
    if |values| == 0 then []
    else Stored(width, values[..|values| - 1]) + LittleEndian(width, values[|values| - 1])
  }

  lemma PlaceInFile(width: nat, i: nat, n: nat)
    requires i < n
    ensures 0 <= width * i && width * i + width == width * (i + 1) <= width * n
  {
    assert width * n == width * (i + 1) + width * (n - i - 1);
  }

  /** The bytes of number i. */
  function PieceOf(bytes: seq<Byte>, width: nat, i: nat): seq<Byte>
    requires width * i + width <= |bytes|
  {
    bytes[width * i..width * i + width]
  }

  lemma {:induction false} StoredBytes(bytes: seq<Byte>, width: nat, values: seq<nat>, n: nat)
    requires n <= |values| && width * |values| <= |bytes|
    requires forall i :: 0 <= i < n && width * i + width <= |bytes| ==> LittleEndian(width, values[i]) == PieceOf(bytes, width, i)
    ensures width * n <= |bytes| && Stored(width, values[..n]) == bytes[..width * n]
  {
    hide LittleEndian, PieceOf;
    if n > 0 {
      PlaceInFile(width, n - 1, |values|);
      StoredBytes(bytes, width, values, n - 1);
      assert values[..n][..n - 1] == values[..n - 1];
      PieceEnds(bytes, width, n - 1);
    } else {
      assert width * n == 0;
      assert values[..n] == [];
    }
  }

  lemma PieceEnds(bytes: seq<Byte>, width: nat, i: nat)
    requires width * i + width <= |bytes|
    ensures bytes[..width * i] + PieceOf(bytes, width, i) == bytes[..width * i + width]
  {}

  /** The files are the grid's samples, each in its width, and nothing else. */
  lemma FilesHoldTheSamples(f: Files)
    requires ExactFiles(f)
    ensures f.densities == Stored(4, DensitiesOf(f))
    ensures f.materials.Some? ==> f.materials.value == Stored(2, MaterialsOf(f))
  {
    hide SampleCount, LittleEndian, FromLittleEndian;
    var n := SampleCount(f.d);
    forall i | 0 <= i < n ensures LittleEndian(4, DensitiesOf(f)[i]) == PieceOf(f.densities, 4, i) {
      NumberRewrites(f.densities[4 * i..4 * i + 4]);
    }
    StoredBytes(f.densities, 4, DensitiesOf(f), n);
    assert DensitiesOf(f)[..n] == DensitiesOf(f) && f.densities[..4 * n] == f.densities;
    if f.materials.Some? {
      MaterialsAreStored(f);
    }
  }

  lemma MaterialsAreStored(f: Files)
    requires ExactFiles(f) && f.materials.Some?
    ensures f.materials.value == Stored(2, MaterialsOf(f))
  {
    hide SampleCount, LittleEndian, FromLittleEndian;
    var n, bytes := SampleCount(f.d), f.materials.value;
    forall i | 0 <= i < n ensures LittleEndian(2, MaterialsOf(f)[i]) == PieceOf(bytes, 2, i) {
      NumberRewrites(bytes[2 * i..2 * i + 2]);
    }
    StoredBytes(bytes, 2, MaterialsOf(f), n);
    assert MaterialsOf(f)[..n] == MaterialsOf(f) && bytes[..2 * n] == bytes;
  }

  /** What the in-memory grid answers for the same data. */
  function DenseSample(f: Files, point: GridPoint): Option<GridSample>
    requires ExactFiles(f)
  {
    SamplesExist(f.d);
    GridSampleAt(f.d, DensitiesOf(f), MaterialsOf(f), point)
  }

  lemma SamplesExist(d: Descriptor)
    requires ValidDescriptor(d)
    ensures SampleCount(d) > 0
  {
    var p := Place(0, 0, 0);
    IndicesAreExact(d, p, p);
  }

  // ---- Cache slots ----

  datatype Slot = Slot(row: nat, block: nat, count: nat, densities: seq<Byte>, materials: seq<Byte>)

  const EMPTY_SLOT := Slot(NONE, NONE, 0, seq(4 * BLOCK_SAMPLES, _ => 0), seq(2 * BLOCK_SAMPLES, _ => 0))

  predicate ShapedSlot(s: Slot) {
    |s.densities| == 4 * BLOCK_SAMPLES && |s.materials| == 2 * BLOCK_SAMPLES
  }

  /** The slot a row's block goes to, computed in 64-bit arithmetic. */
  function SlotIndex(row: nat, block: nat): (i: nat)
    ensures i < CACHE_SLOTS
  {
    (row * ROW_HASH + block) % U64_COUNT % CACHE_SLOTS
  }

  lemma LowBitsStay(x: nat)
    ensures x % U64_COUNT % CACHE_SLOTS == x % CACHE_SLOTS
  {
    var q, r := x / U64_COUNT, x % U64_COUNT;
    assert x == q * 0x80_0000_0000_0000 * 512 + r;
  }

  lemma Further(x: nat, rounds: nat, more: nat)
    ensures (x + rounds * CACHE_SLOTS + more) % CACHE_SLOTS == (x % CACHE_SLOTS + more) % CACHE_SLOTS
  {
    var q, r := x / CACHE_SLOTS, x % CACHE_SLOTS;
    assert x + rounds * CACHE_SLOTS + more == (q + rounds) * CACHE_SLOTS + (r + more);
  }

  /** The wrap-around never shows: blocks of a row take the slots one after another, rows start a fixed number further on. */
  lemma SlotsFollowBlocks(row: nat, block: nat)
    ensures SlotIndex(row, block + 1) == (SlotIndex(row, block) + 1) % CACHE_SLOTS
    ensures SlotIndex(row + 1, block) == (SlotIndex(row, block) + 167) % CACHE_SLOTS
  {
    var x := row * ROW_HASH + block;
    SlotOf(row, block);
    SlotOf(row, block + 1);
    SlotOf(row + 1, block);
    hide SlotIndex;
    Further(x, 0, 1);
    Further(x, 2569187, 167);
    assert (row + 1) * ROW_HASH + block == x + 2569187 * CACHE_SLOTS + 167;
  }

  lemma SlotOf(row: nat, block: nat)
    ensures SlotIndex(row, block) == (row * ROW_HASH + block) % CACHE_SLOTS
  {
    LowBitsStay(row * ROW_HASH + block);
  }

  /** How one file read turns out: all bytes arrive, or only some of the first ones. */
  datatype Read = Whole | Partial(got: nat)

  /** Both reads of a block load. */
  datatype Reads = Reads(density: Read, material: Read)

  function BlockStart(block: nat): nat { block * BLOCK_SAMPLES }

  /** The number of samples before the block in the files. */
  function FirstSample(d: Descriptor, row: nat, block: nat): nat { row * d.dimX + BlockStart(block) }

  function BlockCount(d: Descriptor, block: nat): nat
    requires BlockStart(block) < d.dimX
  {
    Min(BLOCK_SAMPLES, d.dimX - BlockStart(block))
  }

  function Overwrite(buffer: seq<Byte>, data: seq<Byte>): (r: seq<Byte>)
    requires |data| <= |buffer|
    ensures |r| == |buffer| && r[..|data|] == data
  {
    data + buffer[|data|..]
  }

  /** The first sample of a block in the files, and that the block lies wholly inside them. */
  lemma BlockLiesInFile(d: Descriptor, row: nat, block: nat)
    requires row < RowCount(d) && BlockStart(block) < d.dimX
    ensures FirstSample(d, row, block) + BlockCount(d, block) <= SampleCount(d)
  {
    DigitsFit(row, BlockStart(block) + BlockCount(d, block) - 1, d.dimX, RowCount(d));
    CountByRows(d);
  }

  function BlockBytes(bytes: seq<Byte>, width: nat, first: nat, count: nat): (r: seq<Byte>)
    requires width * first + width * count <= |bytes|
    ensures |r| == width * count
  {
    bytes[width * first..width * first + width * count]
  }

  predicate LoadSucceeds(f: Files, io: Reads) {
    io.density.Whole? && (f.materials.Some? ==> io.material.Whole?)
  }

  /** The bytes of the data a read lays over the start of the buffer: a short read never lays all of them. */
  function Arriving(data: seq<Byte>, io: Read): (r: seq<Byte>)
    requires |data| > 0
    ensures r <= data && (io.Whole? <==> r == data)
  {
    match io
    case Whole => data
    case Partial(got) => data[..Min(got, |data| - 1)]
  }

  function DensityBlock(f: Files, row: nat, block: nat): (r: seq<Byte>)
    requires ExactFiles(f) && row < RowCount(f.d) && BlockStart(block) < f.d.dimX
    ensures |r| == 4 * BlockCount(f.d, block)
  {
    BlockLiesInFile(f.d, row, block);
    BlockBytes(f.densities, 4, FirstSample(f.d, row, block), BlockCount(f.d, block))
  }

  function MaterialBlock(f: Files, row: nat, block: nat): (r: seq<Byte>)
    requires ExactFiles(f) && row < RowCount(f.d) && BlockStart(block) < f.d.dimX && f.materials.Some?
    ensures |r| == 2 * BlockCount(f.d, block)
  {
    BlockLiesInFile(f.d, row, block);
    BlockBytes(f.materials.value, 2, FirstSample(f.d, row, block), BlockCount(f.d, block))
  }

  function LaidDensities(f: Files, row: nat, block: nat, io: Reads): (r: seq<Byte>)
    requires ExactFiles(f) && row < RowCount(f.d) && BlockStart(block) < f.d.dimX
    ensures |r| <= 4 * BLOCK_SAMPLES
  {
    Arriving(DensityBlock(f, row, block), io.density)
  }

  /** Materials are only read once all densities have arrived. */
  function LaidMaterials(f: Files, row: nat, block: nat, io: Reads): (r: seq<Byte>)
    requires ExactFiles(f) && row < RowCount(f.d) && BlockStart(block) < f.d.dimX
    ensures |r| <= 2 * BLOCK_SAMPLES
  {
    if f.materials.None? || !io.density.Whole? then [] else Arriving(MaterialBlock(f, row, block), io.material)
  }

  /** The slot after loading; a failed load has laid its bytes but keeps the old row, block and count. */
  function Loaded(f: Files, row: nat, block: nat, s: Slot, io: Reads): (r: Slot)
    requires ExactFiles(f) && ShapedSlot(s) && row < RowCount(f.d) && BlockStart(block) < f.d.dimX
    ensures ShapedSlot(r)
  {
    var laid := s.(densities := Overwrite(s.densities, LaidDensities(f, row, block, io)),
                   materials := Overwrite(s.materials, LaidMaterials(f, row, block, io)));
    if LoadSucceeds(f, io) then laid.(row := row, block := block, count := BlockCount(f.d, block)) else laid
  }

  // ---- Sampling ----

  datatype Answer = Answer(cache: seq<Slot>, sample: Option<GridSample>)

  predicate ShapedCache(cache: seq<Slot>) {
    |cache| == CACHE_SLOTS && forall i :: 0 <= i < CACHE_SLOTS ==> ShapedSlot(cache[i])
  }

  function SampleInSlot(f: Files, s: Slot, local: nat): Option<GridSample>
    requires ShapedSlot(s) && local < BLOCK_SAMPLES
  {
    if local >= s.count then None
    else
      Some(GridSample(Number32(s.densities, local),
                      if f.materials.Some? then Number16(s.materials, local) else f.d.defaultMaterial))
  }

  /** One sample call: the cache afterwards and the answer. */
  function CachedSample(f: Files, cache: seq<Slot>, point: GridPoint, io: Reads): (r: Answer)
    requires ExactFiles(f) && ShapedCache(cache)
    ensures ShapedCache(r.cache)
  {
    var p := PlaceOf(f.d, point);
    if p.None? then Answer(cache, None)
    else
      IndicesAreExact(f.d, p.value, p.value);
      var row, block := Row(f.d, p.value), p.value.x / BLOCK_SAMPLES;
      var i := SlotIndex(row, block);
      var s := cache[i];
      if s.row == row && s.block == block then Answer(cache, SampleInSlot(f, s, p.value.x - BlockStart(block)))
      else
        var loaded := Loaded(f, row, block, s, io);
        Answer(cache[i := loaded],
               if LoadSucceeds(f, io) then SampleInSlot(f, loaded, p.value.x - BlockStart(block)) else None)
  }

  // ---- Coherence ----

  /** The slot is unused, or holds exactly the bytes of the block it names. */
  predicate CoherentSlot(f: Files, s: Slot)
    requires ExactFiles(f)
  {
    ShapedSlot(s) &&
    if s.row == NONE && s.block == NONE then true
    else
      && s.row < RowCount(f.d) && BlockStart(s.block) < f.d.dimX && s.count == BlockCount(f.d, s.block)
      && HoldsBlock(f, s)
  }

  predicate HoldsBlock(f: Files, s: Slot)
    requires ExactFiles(f) && ShapedSlot(s) && s.row < RowCount(f.d) && BlockStart(s.block) < f.d.dimX
  {
    && DensityBlock(f, s.row, s.block) <= s.densities
    && (f.materials.Some? ==> MaterialBlock(f, s.row, s.block) <= s.materials)
  }

  predicate Coherent(f: Files, cache: seq<Slot>)
    requires ExactFiles(f)
  {
    |cache| == CACHE_SLOTS && forall i :: 0 <= i < CACHE_SLOTS ==> CoherentSlot(f, cache[i])
  }

  lemma WholeLoadIsCoherent(f: Files, row: nat, block: nat, s: Slot, io: Reads)
    requires ExactFiles(f) && ShapedSlot(s) && row < RowCount(f.d) && BlockStart(block) < f.d.dimX
    requires LoadSucceeds(f, io)
    ensures
      var l := Loaded(f, row, block, s, io);
      CoherentSlot(f, l) && l.row == row && l.block == block
  {}

  lemma SliceOfPrefix(s: seq<Byte>, n: nat, lo: nat, hi: nat)
    requires lo <= hi <= n <= |s|
    ensures s[..n][lo..hi] == s[lo..hi]
  {
    assert forall k :: 0 <= k < hi - lo ==> s[..n][lo..hi][k] == s[lo..hi][k];
  }

  lemma SliceOfSlice(s: seq<Byte>, a: nat, b: nat, lo: nat, hi: nat)
    requires a <= b <= |s| && lo <= hi <= b - a
    ensures s[a..b][lo..hi] == s[a + lo..a + hi]
  {
    assert forall k :: 0 <= k < hi - lo ==> s[a..b][lo..hi][k] == s[a + lo..a + hi][k];
  }

  lemma NumberInBlock(bytes: seq<Byte>, buffer: seq<Byte>, width: nat, first: nat, n: nat, local: nat)
    requires local < n && width * first + width * n <= |bytes| && width * n <= |buffer|
    requires buffer[..width * n] == BlockBytes(bytes, width, first, n)
    requires width == 2 || width == 4
    ensures width * local + width <= |buffer| && width * (first + local) + width <= |bytes|
    ensures buffer[width * local..width * local + width] == bytes[width * (first + local)..width * (first + local) + width]
  {
    var lo, hi, low, size := width * local, width * local + width, width * first, width * n;
    assert hi <= size && low + lo == width * (first + local) by {
      if width == 2 {} else {}
    }
    SliceOfPrefix(buffer, size, lo, hi);
    SliceOfSlice(bytes, low, low + size, lo, hi);
  }

  lemma Numbers32InBlock(bytes: seq<Byte>, buffer: seq<Byte>, first: nat, n: nat, local: nat)
    requires local < n && 4 * first + 4 * n <= |bytes| && 4 * n <= |buffer|
    requires buffer[..4 * n] == BlockBytes(bytes, 4, first, n)
    ensures Number32(buffer, local) == Number32(bytes, first + local)
  {
    NumberInBlock(bytes, buffer, 4, first, n, local);
    hide FromLittleEndian, BlockBytes;
  }

  lemma Numbers16InBlock(bytes: seq<Byte>, buffer: seq<Byte>, first: nat, n: nat, local: nat)
    requires local < n && 2 * first + 2 * n <= |bytes| && 2 * n <= |buffer|
    requires buffer[..2 * n] == BlockBytes(bytes, 2, first, n)
    ensures Number16(buffer, local) == Number16(bytes, first + local)
  {
    NumberInBlock(bytes, buffer, 2, first, n, local);
    hide FromLittleEndian, BlockBytes;
  }

  /** A buffer that holds n samples of the files from `first` on answers as the files do. */
  lemma BlockAnswers(f: Files, s: Slot, first: nat, n: nat, local: nat)
    requires ExactFiles(f) && ShapedSlot(s) && first + n <= SampleCount(f.d) && local < n == s.count <= BLOCK_SAMPLES
    requires s.densities[..4 * n] == BlockBytes(f.densities, 4, first, n)
    requires f.materials.Some? ==> s.materials[..2 * n] == BlockBytes(f.materials.value, 2, first, n)
    ensures SampleInSlot(f, s, local)
         == Some(GridSample(DensitiesOf(f)[first + local],
                            if f.materials.None? then f.d.defaultMaterial else MaterialsOf(f)[first + local]))
  {
    hide SampleCount, BlockBytes, Number32, Number16;
    Numbers32InBlock(f.densities, s.densities, first, n, local);
    if f.materials.Some? {
      Numbers16InBlock(f.materials.value, s.materials, first, n, local);
    }
  }

  /** A coherent slot answers, for a place in its block, what the in-memory grid answers. */
  lemma CoherentSlotAnswers(f: Files, s: Slot, p: Place)
    requires ExactFiles(f) && CoherentSlot(f, s) && InGrid(f.d, p)
    requires s.row == Row(f.d, p) && s.block == p.x / BLOCK_SAMPLES && s.row < RowCount(f.d) && s.row != NONE
    ensures IndexOf(f.d, p) < SampleCount(f.d)
    ensures SampleInSlot(f, s, p.x - BlockStart(s.block))
         == Some(GridSample(DensitiesOf(f)[IndexOf(f.d, p)],
                            if f.materials.None? then f.d.defaultMaterial else MaterialsOf(f)[IndexOf(f.d, p)]))
  {
    IndicesAreExact(f.d, p, p);
    BlockLiesInFile(f.d, s.row, s.block);
    PlaceInBlock(f.d, p);
    hide Row, RowCount, IndexOf, FirstSample, BlockBytes, SampleInSlot, DensitiesOf, MaterialsOf, SampleCount;
    BlockAnswers(f, s, FirstSample(f.d, s.row, s.block), BlockCount(f.d, s.block), p.x - BlockStart(s.block));
  }

  lemma PlaceInBlock(d: Descriptor, p: Place)
    requires InGrid(d, p)
    ensures
      var block := p.x / BLOCK_SAMPLES;
      && BlockStart(block) <= p.x < BlockStart(block) + BLOCK_SAMPLES && p.x - BlockStart(block) < BlockCount(d, block)
      && FirstSample(d, Row(d, p), block) + (p.x - BlockStart(block)) == IndexOf(d, p)
  {
    hide Row;
  }

  lemma AtLeastOneColumn(rows: nat, columns: nat)
    requires columns > 0
    ensures rows * columns >= rows
  {
    MultiplesKeepOrder(0, columns, if rows > 0 then rows else 1);
    assert rows * columns == rows + rows * (columns - 1);
  }

  /** A slot in use by no block is never taken for one: rows stay below the sentinel. */
  lemma RowsAreNoSentinel(f: Files, row: nat)
    requires ExactFiles(f) && row < RowCount(f.d)
    ensures row != NONE
  {
    CountByRows(f.d);
    AtLeastOneColumn(RowCount(f.d), f.d.dimX);
    hide RowCount, SampleCount;
  }

  lemma DenseSampleAt(f: Files, point: GridPoint, p: Place)
    requires ExactFiles(f) && PlaceOf(f.d, point) == Some(p)
    ensures InGrid(f.d, p) && Row(f.d, p) < RowCount(f.d) && IndexOf(f.d, p) < SampleCount(f.d)
    ensures DenseSample(f, point)
         == Some(GridSample(DensitiesOf(f)[IndexOf(f.d, p)],
                            if f.materials.None? then f.d.defaultMaterial else MaterialsOf(f)[IndexOf(f.d, p)]))
  {
    IndicesAreExact(f.d, p, p);
    SamplesExist(f.d);
    hide IndexOf, Row, PlaceOf, Number16, Number32;
  }

  lemma CachedAt(f: Files, cache: seq<Slot>, point: GridPoint, io: Reads, p: Place)
    requires ExactFiles(f) && Coherent(f, cache) && LoadSucceeds(f, io) && PlaceOf(f.d, point) == Some(p)
    requires InGrid(f.d, p) && Row(f.d, p) < RowCount(f.d)
    ensures ShapedCache(cache) && Coherent(f, CachedSample(f, cache, point, io).cache)
    ensures
      var s := CachedSample(f, cache, point, io).cache[SlotIndex(Row(f.d, p), p.x / BLOCK_SAMPLES)];
      && CoherentSlot(f, s) && s.row == Row(f.d, p) && s.block == p.x / BLOCK_SAMPLES
      && CachedSample(f, cache, point, io).sample == SampleInSlot(f, s, p.x - BlockStart(s.block))
  {
    hide Loaded, CoherentSlot, SampleInSlot, Row, PlaceOf, RowCount, SampleCount, LoadSucceeds;
    CoherentIsShaped(f, cache);
    var row, block := Row(f.d, p), p.x / BLOCK_SAMPLES;
    var s := cache[SlotIndex(row, block)];
    assert CoherentSlot(f, s);
    WholeLoadIsCoherent(f, row, block, s, io);
  }

  /** One call whose reads succeed keeps the cache coherent and answers as the in-memory grid does. */
  lemma CachedSampleIsDense(f: Files, cache: seq<Slot>, point: GridPoint, io: Reads)
    requires ExactFiles(f) && Coherent(f, cache) && LoadSucceeds(f, io)
    ensures ShapedCache(cache) && Coherent(f, CachedSample(f, cache, point, io).cache)
    ensures CachedSample(f, cache, point, io).sample == DenseSample(f, point)
  {
    var p := PlaceOf(f.d, point);
    if p.Some? {
      DenseSampleAt(f, point, p.value);
      CachedAt(f, cache, point, io, p.value);
      hide SlotIndex, CachedSample, CoherentSlot, SampleInSlot, IndexOf, DenseSample, DensitiesOf, MaterialsOf, PlaceOf;
      var s := CachedSample(f, cache, point, io).cache[SlotIndex(Row(f.d, p.value), p.value.x / BLOCK_SAMPLES)];
      RowsAreNoSentinel(f, Row(f.d, p.value));
      CoherentSlotAnswers(f, s, p.value);
    }
  }

  // ---- Histories ----

  datatype Access = Access(point: GridPoint, io: Reads)

  /** The answers to any sequence of calls, starting from a given cache. */
  function Answers(f: Files, cache: seq<Slot>, history: seq<Access>): seq<Option<GridSample>>
    requires ExactFiles(f) && ShapedCache(cache)
    decreases |history|
  {
    if |history| == 0 then []
    else
      var a := CachedSample(f, cache, history[0].point, history[0].io);
      [a.sample] + Answers(f, a.cache, history[1..])
  }

  function FreshCache(): (c: seq<Slot>)
    ensures ShapedCache(c)
  {
    seq(CACHE_SLOTS, _ => EMPTY_SLOT)
  }

  lemma CoherentIsShaped(f: Files, cache: seq<Slot>)
    requires ExactFiles(f) && Coherent(f, cache)
    ensures ShapedCache(cache)
  {
    hide HoldsBlock;
    forall i | 0 <= i < CACHE_SLOTS ensures ShapedSlot(cache[i]) {
      assert CoherentSlot(f, cache[i]);
    }
  }

  lemma {:induction false} CoherentAnswersAreDense(f: Files, cache: seq<Slot>, history: seq<Access>)
    requires ExactFiles(f) && Coherent(f, cache) && forall a :: a in history ==> LoadSucceeds(f, a.io)
    ensures ShapedCache(cache) && |Answers(f, cache, history)| == |history|
    ensures forall k :: 0 <= k < |history| ==> Answers(f, cache, history)[k] == DenseSample(f, history[k].point)
    decreases |history|
  {
    CoherentIsShaped(f, cache);
    hide CachedSample, DenseSample, LoadSucceeds, CoherentSlot, ExactFiles;
    if |history| > 0 {
      assert history[0] in history;
      CachedSampleIsDense(f, cache, history[0].point, history[0].io);
      var a := CachedSample(f, cache, history[0].point, history[0].io);
      CoherentAnswersAreDense(f, a.cache, history[1..]);
      var rest := Answers(f, a.cache, history[1..]);
      assert Answers(f, cache, history) == [a.sample] + rest;
      forall k | 0 <= k < |history| ensures ([a.sample] + rest)[k] == DenseSample(f, history[k].point) {
        if k > 0 { assert history[1..][k - 1] == history[k]; }
      }
    }
  }

  /** Every history of sample calls, however its blocks collide in the cache, is answered as the in-memory grid answers,
      as long as the reads succeed. */
  lemma CacheIsTransparent(f: Files, history: seq<Access>)
    requires ExactFiles(f) && forall a :: a in history ==> LoadSucceeds(f, a.io)
    ensures |Answers(f, FreshCache(), history)| == |history|
    ensures forall k :: 0 <= k < |history| ==> Answers(f, FreshCache(), history)[k] == DenseSample(f, history[k].point)
  {
    hide Answers, DenseSample, LoadSucceeds;
    CoherentAnswersAreDense(f, FreshCache(), history);
  }
}
