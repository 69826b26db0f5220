/** What a failed block read leaves in the cache, and what later calls make of it. */
module FailedReads {
  import opened Numbers
  import opened ChunkKeys
  import opened Bytes
  import opened DenseGrids
  import opened CachedGrids

  /** The bytes agree at every position from lo up to hi that both sequences have. */
  predicate AgreeIn(a: seq<Byte>, b: seq<Byte>, lo: nat, hi: nat) {
    forall k :: lo <= k < hi && k < |a| && k < |b| ==> a[k] == b[k]
  }

  predicate Unused(s: Slot) {
    s.row == NONE && s.block == NONE
  }

  predicate BlockExists(d: Descriptor, row: nat, block: nat) {
    row < RowCount(d) && BlockStart(block) < d.dimX
  }

  // ---- The slot after a failed load ----

  lemma PrefixSurvives(buffer: seq<Byte>, laid: seq<Byte>, held: seq<Byte>)
    requires held <= buffer && |laid| <= |buffer|
    ensures held <= Overwrite(buffer, laid) <==> AgreeIn(held, laid, 0, |laid|)
  {
    var after := Overwrite(buffer, laid);
    if held <= after {
      forall k | 0 <= k < |laid| && k < |held| ensures held[k] == laid[k] {
        assert after[k] == held[k];
      }
    } else {
      assert exists k :: 0 <= k < |held| && after[k] != held[k];
    }
  }

  /** One failed load: the slot stays coherent exactly when it was unused or the bytes that did arrive are those of the
      block it still names. */
  lemma FailedLoadPoisonsExactly(f: Files, row: nat, block: nat, s: Slot, io: Reads)
    requires ExactFiles(f) && CoherentSlot(f, s) && BlockExists(f.d, row, block) && !LoadSucceeds(f, io)
    ensures
      CoherentSlot(f, Loaded(f, row, block, s, io))
      <==> Unused(s)
           || (AgreeIn(DensityBlock(f, s.row, s.block), LaidDensities(f, row, block, io), 0, 4 * BLOCK_SAMPLES)
               && (f.materials.Some? ==>
                     AgreeIn(MaterialBlock(f, s.row, s.block), LaidMaterials(f, row, block, io), 0, 2 * BLOCK_SAMPLES)))
  {
    hide DensityBlock, MaterialBlock, LaidDensities, LaidMaterials, RowCount;
    if !Unused(s) {
      PrefixSurvives(s.densities, LaidDensities(f, row, block, io), DensityBlock(f, s.row, s.block));
      if f.materials.Some? {
        PrefixSurvives(s.materials, LaidMaterials(f, row, block, io), MaterialBlock(f, s.row, s.block));
      }
    }
  }

  /** The files hold the same bytes for both blocks wherever a failing load of the second can overwrite the first: all but
      the last byte of the file read last, and all of the densities when materials follow. */
  predicate Interchangeable(f: Files, heldRow: nat, heldBlock: nat, row: nat, block: nat)
    requires ExactFiles(f) && BlockExists(f.d, heldRow, heldBlock) && BlockExists(f.d, row, block)
  {
    var n := BlockCount(f.d, block);
    && AgreeIn(DensityBlock(f, heldRow, heldBlock), DensityBlock(f, row, block), 0,
               if f.materials.Some? then 4 * n else 4 * n - 1)
    && (f.materials.Some? ==> AgreeIn(MaterialBlock(f, heldRow, heldBlock), MaterialBlock(f, row, block), 0, 2 * n - 1))
  }

  /** The reads that lay the most bytes and still fail. */
  function LongestFailure(f: Files): Reads {
    if f.materials.Some? then Reads(Whole, Partial(2 * BLOCK_SAMPLES)) else Reads(Partial(4 * BLOCK_SAMPLES), Whole)
  }

  lemma ArrivingAgrees(held: seq<Byte>, data: seq<Byte>, io: Read, most: nat)
    requires |data| > 0 && |Arriving(data, io)| <= most && AgreeIn(held, data, 0, most)
    ensures AgreeIn(held, Arriving(data, io), 0, |data|)
  {
    var r := Arriving(data, io);
    forall k | 0 <= k < |data| && k < |held| && k < |r| ensures held[k] == r[k] {
      assert r[k] == data[k];
    }
  }

  /** Before any read: some failing load of the block breaks a coherent slot exactly when the slot is in use and the files
      differ where that load can overwrite. */
  lemma SomeFailedLoadPoisons(f: Files, row: nat, block: nat, s: Slot)
    requires ExactFiles(f) && CoherentSlot(f, s) && BlockExists(f.d, row, block)
    ensures (exists io :: !LoadSucceeds(f, io) && !CoherentSlot(f, Loaded(f, row, block, s, io)))
       <==> !Unused(s) && !Interchangeable(f, s.row, s.block, row, block)
  {
    assert ShapedSlot(s) && (Unused(s) || BlockExists(f.d, s.row, s.block)) by { UsedBlockExists(f, s); }
    hide DensityBlock, MaterialBlock, RowCount, CoherentSlot, Loaded, AgreeIn;
    if io :| !LoadSucceeds(f, io) && !CoherentSlot(f, Loaded(f, row, block, s, io)) {
      FailedLoadPoisonsExactly(f, row, block, s, io);
      if Interchangeable(f, s.row, s.block, row, block) {
        InterchangeableCovers(f, row, block, s, io);
      }
    }
    var io := LongestFailure(f);
    FailedLoadPoisonsExactly(f, row, block, s, io);
    if !Unused(s) && CoherentSlot(f, Loaded(f, row, block, s, io)) {
      LongestFailureReaches(f, row, block, s);
    }
  }

  lemma UsedBlockExists(f: Files, s: Slot)
    requires ExactFiles(f) && CoherentSlot(f, s)
    ensures ShapedSlot(s) && (Unused(s) || BlockExists(f.d, s.row, s.block))
  {
    hide DensityBlock, MaterialBlock, RowCount;
  }

  lemma InterchangeableCovers(f: Files, row: nat, block: nat, s: Slot, io: Reads)
    requires ExactFiles(f) && BlockExists(f.d, s.row, s.block) && BlockExists(f.d, row, block) && !LoadSucceeds(f, io)
    requires Interchangeable(f, s.row, s.block, row, block)
    ensures AgreeIn(DensityBlock(f, s.row, s.block), LaidDensities(f, row, block, io), 0, 4 * BLOCK_SAMPLES)
    ensures f.materials.Some? ==>
              AgreeIn(MaterialBlock(f, s.row, s.block), LaidMaterials(f, row, block, io), 0, 2 * BLOCK_SAMPLES)
  {
    hide DensityBlock, MaterialBlock, RowCount;
    var n := BlockCount(f.d, block);
    var most := if f.materials.Some? then 4 * n else 4 * n - 1;
    ArrivingAgrees(DensityBlock(f, s.row, s.block), DensityBlock(f, row, block), io.density, most);
    if f.materials.Some? && io.density.Whole? {
      ArrivingAgrees(MaterialBlock(f, s.row, s.block), MaterialBlock(f, row, block), io.material, 2 * n - 1);
    }
  }

  lemma LongestFailureReaches(f: Files, row: nat, block: nat, s: Slot)
    requires ExactFiles(f) && BlockExists(f.d, s.row, s.block) && BlockExists(f.d, row, block)
    requires AgreeIn(DensityBlock(f, s.row, s.block), LaidDensities(f, row, block, LongestFailure(f)), 0, 4 * BLOCK_SAMPLES)
    requires f.materials.Some? ==>
               AgreeIn(MaterialBlock(f, s.row, s.block), LaidMaterials(f, row, block, LongestFailure(f)), 0, 2 * BLOCK_SAMPLES)
    ensures Interchangeable(f, s.row, s.block, row, block)
  {
    hide DensityBlock, MaterialBlock, RowCount;
    var n := BlockCount(f.d, block);
    var held, data, laid := DensityBlock(f, s.row, s.block), DensityBlock(f, row, block),
                            LaidDensities(f, row, block, LongestFailure(f));
    forall k | 0 <= k < |laid| && k < |held| ensures held[k] == data[k] {
      assert laid[k] == data[k];
    }
    if f.materials.Some? {
      var heldM, dataM, laidM := MaterialBlock(f, s.row, s.block), MaterialBlock(f, row, block),
                                 LaidMaterials(f, row, block, LongestFailure(f));
      forall k | 0 <= k < |laidM| && k < |heldM| ensures heldM[k] == dataM[k] {
        assert laidM[k] == dataM[k];
      }
    }
  }

  // ---- What later calls answer ----

  lemma {:induction false} NumbersAreExact(a: seq<Byte>, b: seq<Byte>)
    requires |a| == |b|
    ensures FromLittleEndian(a) == FromLittleEndian(b) <==> a == b
  {
    if |a| > 0 {
      NumbersAreExact(a[1..], b[1..]);
      assert a == [a[0]] + a[1..] && b == [b[0]] + b[1..];
    }
  }

  lemma SliceAfterOverwrite(buffer: seq<Byte>, laid: seq<Byte>, lo: nat, hi: nat)
    requires lo <= hi <= |buffer| && |laid| <= |buffer|
    ensures Overwrite(buffer, laid)[lo..hi] == buffer[lo..hi] <==> AgreeIn(buffer, laid, lo, hi)
  {
    var after := Overwrite(buffer, laid);
    if after[lo..hi] == buffer[lo..hi] {
      forall k | lo <= k < hi && k < |laid| ensures buffer[k] == laid[k] {
        assert after[lo..hi][k - lo] == buffer[lo..hi][k - lo];
      }
    }
  }

  lemma NumberAfterOverwrite32(buffer: seq<Byte>, laid: seq<Byte>, local: nat)
    requires 4 * local + 4 <= |buffer| && |laid| <= |buffer|
    ensures Number32(Overwrite(buffer, laid), local) == Number32(buffer, local)
       <==> AgreeIn(buffer, laid, 4 * local, 4 * local + 4)
  {
    var lo, hi := 4 * local, 4 * local + 4;
    SliceAfterOverwrite(buffer, laid, lo, hi);
    NumbersAreExact(Overwrite(buffer, laid)[lo..hi], buffer[lo..hi]);
    hide FromLittleEndian, AgreeIn;
  }

  lemma NumberAfterOverwrite16(buffer: seq<Byte>, laid: seq<Byte>, local: nat)
    requires 2 * local + 2 <= |buffer| && |laid| <= |buffer|
    ensures Number16(Overwrite(buffer, laid), local) == Number16(buffer, local)
       <==> AgreeIn(buffer, laid, 2 * local, 2 * local + 2)
  {
    var lo, hi := 2 * local, 2 * local + 2;
    SliceAfterOverwrite(buffer, laid, lo, hi);
    NumbersAreExact(Overwrite(buffer, laid)[lo..hi], buffer[lo..hi]);
    hide FromLittleEndian, AgreeIn;
  }

  /** A sample's bytes that arrived whole are read as the other block's sample at the same place. */
  lemma NumberLaidOver(buffer: seq<Byte>, data: seq<Byte>, laid: seq<Byte>, local: nat)
    requires 4 * local + 4 <= |laid| && laid <= data && |laid| <= |buffer|
    ensures Number32(Overwrite(buffer, laid), local) == Number32(data, local)
  {
    hide FromLittleEndian;
    var lo, hi := 4 * local, 4 * local + 4;
    assert Overwrite(buffer, laid)[lo..hi] == laid[lo..hi] == data[lo..hi];
  }

  /** The slot's answer for one of its samples survives a failed load exactly when the bytes that arrived over that sample
      are the same. */
  lemma AnswerAfterFailedLoad(f: Files, s: Slot, row: nat, block: nat, io: Reads, local: nat)
    requires ExactFiles(f) && ShapedSlot(s) && BlockExists(f.d, row, block) && !LoadSucceeds(f, io)
    requires local < s.count && local < BLOCK_SAMPLES
    ensures
      var l := Loaded(f, row, block, s, io);
      var dense, painted := LaidDensities(f, row, block, io), LaidMaterials(f, row, block, io);
      && (SampleInSlot(f, l, local) == SampleInSlot(f, s, local)
          <==> AgreeIn(s.densities, dense, 4 * local, 4 * local + 4)
               && AgreeIn(s.materials, painted, 2 * local, 2 * local + 2))
      && (|dense| >= 4 * local + 4 ==>
            SampleInSlot(f, l, local).value.density == Number32(DensityBlock(f, row, block), local))
  {
    var dense, painted := LaidDensities(f, row, block, io), LaidMaterials(f, row, block, io);
    NumberAfterOverwrite32(s.densities, dense, local);
    NumberAfterOverwrite16(s.materials, painted, local);
    if |dense| >= 4 * local + 4 {
      NumberLaidOver(s.densities, DensityBlock(f, row, block), dense, local);
    }
    hide Number32, Number16, Overwrite, DensityBlock, MaterialBlock, RowCount;
  }

  lemma AgreementOfPrefix(held: seq<Byte>, buffer: seq<Byte>, laid: seq<Byte>, lo: nat, hi: nat)
    requires held <= buffer && hi <= |held|
    ensures AgreeIn(buffer, laid, lo, hi) <==> AgreeIn(held, laid, lo, hi)
  {
    forall k | 0 <= k < |held| ensures held[k] == buffer[k] {}
  }

  /** Where a point's sample lives: its row, its block, and its place in the block. */
  datatype Home = Home(row: nat, block: nat, local: nat)

  function HomeOf(d: Descriptor, point: GridPoint): (r: Option<Home>)
    requires ValidDescriptor(d)
    ensures r.Some? ==> BlockExists(d, r.value.row, r.value.block) && r.value.local < BlockCount(d, r.value.block)
  {
    var p := PlaceOf(d, point);
    if p.None? then None
    else
      IndicesAreExact(d, p.value, p.value);
      Some(Home(Row(d, p.value), p.value.x / BLOCK_SAMPLES, p.value.x % BLOCK_SAMPLES))
  }

  /** Two points whose blocks share a cache slot. */
  predicate Collide(a: Home, b: Home) {
    SlotIndex(a.row, a.block) == SlotIndex(b.row, b.block) && !(a.row == b.row && a.block == b.block)
  }

  /** A successful call: its block then sits in its slot, and the slot answers as the in-memory grid does. */
  lemma SuccessfulCall(f: Files, cache: seq<Slot>, point: GridPoint, io: Reads)
    requires ExactFiles(f) && Coherent(f, cache) && ShapedCache(cache) && LoadSucceeds(f, io) && HomeOf(f.d, point).Some?
    ensures
      var h, r := HomeOf(f.d, point).value, CachedSample(f, cache, point, io);
      var s := r.cache[SlotIndex(h.row, h.block)];
      && CoherentSlot(f, s) && s.row == h.row && s.block == h.block && s.count == BlockCount(f.d, h.block) && !Unused(s)
      && r.sample == DenseSample(f, point) == SampleInSlot(f, s, h.local)
  {
    var p := PlaceOf(f.d, point).value;
    IndicesAreExact(f.d, p, p);
    CachedSampleIsDense(f, cache, point, io);
    CachedAt(f, cache, point, io, p);
    RowsAreNoSentinel(f, Row(f.d, p));
    hide SlotIndex, CachedSample, DenseSample, SampleInSlot, HoldsBlock, Row, RowCount;
  }

  /** A call whose load fails answers nothing and leaves the bytes that arrived in the slot. */
  lemma FailedCall(f: Files, cache: seq<Slot>, point: GridPoint, io: Reads)
    requires ExactFiles(f) && ShapedCache(cache) && !LoadSucceeds(f, io) && HomeOf(f.d, point).Some?
    requires
      var h := HomeOf(f.d, point).value;
      var s := cache[SlotIndex(h.row, h.block)];
      !(s.row == h.row && s.block == h.block)
    ensures
      var h, r := HomeOf(f.d, point).value, CachedSample(f, cache, point, io);
      var i := SlotIndex(h.row, h.block);
      r.sample == None && r.cache == cache[i := Loaded(f, h.row, h.block, cache[i], io)]
  {
    hide SlotIndex, Loaded, SampleInSlot, Row, RowCount;
  }

  /** A call that finds its block in its slot answers from there. */
  lemma CallThatHits(f: Files, cache: seq<Slot>, point: GridPoint, io: Reads)
    requires ExactFiles(f) && ShapedCache(cache) && HomeOf(f.d, point).Some?
    requires
      var h := HomeOf(f.d, point).value;
      var s := cache[SlotIndex(h.row, h.block)];
      s.row == h.row && s.block == h.block
    ensures
      var h := HomeOf(f.d, point).value;
      CachedSample(f, cache, point, io).sample == SampleInSlot(f, cache[SlotIndex(h.row, h.block)], h.local)
  {
    hide SlotIndex, Loaded, SampleInSlot, Row, RowCount;
  }

  /** A point is answered, a colliding block then fails to load, and the point is asked for again: the second answer is right
      exactly when the bytes that arrived over its sample are the sample's own. Once its density arrived whole, the answer
      carries the density of the other block at the same place. */
  lemma FailedReadIsServedLater(f: Files, cache: seq<Slot>, p: GridPoint, q: GridPoint, io: Reads, failed: Reads, later: Reads)
    requires ExactFiles(f) && Coherent(f, cache) && ShapedCache(cache) && LoadSucceeds(f, io) && !LoadSucceeds(f, failed)
    requires HomeOf(f.d, p).Some? && HomeOf(f.d, q).Some? && Collide(HomeOf(f.d, p).value, HomeOf(f.d, q).value)
    ensures
      var first := CachedSample(f, cache, p, io);
      var second := CachedSample(f, first.cache, q, failed);
      var third := CachedSample(f, second.cache, p, later);
      var a, b := HomeOf(f.d, p).value, HomeOf(f.d, q).value;
      var dense, painted := LaidDensities(f, b.row, b.block, failed), LaidMaterials(f, b.row, b.block, failed);
      && first.sample == DenseSample(f, p) && second.sample == None && third.sample.Some?
      && (third.sample == DenseSample(f, p)
          <==> AgreeIn(DensityBlock(f, a.row, a.block), dense, 4 * a.local, 4 * a.local + 4)
               && (f.materials.Some? ==>
                     AgreeIn(MaterialBlock(f, a.row, a.block), painted, 2 * a.local, 2 * a.local + 2)))
      && (|dense| >= 4 * a.local + 4 ==>
            third.sample.value.density == Number32(DensityBlock(f, b.row, b.block), a.local))
  {
    var a, b := HomeOf(f.d, p).value, HomeOf(f.d, q).value;
    var i := SlotIndex(a.row, a.block);
    SuccessfulCall(f, cache, p, io);
    var first := CachedSample(f, cache, p, io);
    var s := first.cache[i];
    FailedCall(f, first.cache, q, failed);
    var second := CachedSample(f, first.cache, q, failed);
    assert second.cache[i] == Loaded(f, b.row, b.block, s, failed);
    CallThatHits(f, second.cache, p, later);
    AnswerAfterFailedLoad(f, s, b.row, b.block, failed, a.local);
    AgreementOfPrefix(DensityBlock(f, a.row, a.block), s.densities, LaidDensities(f, b.row, b.block, failed),
                      4 * a.local, 4 * a.local + 4);
    if f.materials.Some? {
      AgreementOfPrefix(MaterialBlock(f, a.row, a.block), s.materials, LaidMaterials(f, b.row, b.block, failed),
                        2 * a.local, 2 * a.local + 2);
    }
    hide CachedSample, DenseSample, SlotIndex, DensityBlock, MaterialBlock, RowCount, Number32, Number16, AgreeIn, HomeOf,
         LaidDensities;
  }
}
