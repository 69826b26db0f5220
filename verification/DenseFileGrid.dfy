/** The file-backed grid source: opening checks the file sizes, sampling reads blocks into the cache. */
module DenseFileGrids {
  import opened Numbers
  import opened ChunkKeys
  import opened DenseGrids
  import opened CachedGrids

  datatype FileGridStatus = Ok | InvalidInput | SizeOverflow | FileSizeMismatch | FileOpenFailure

  /** What opening promises, in terms of the exact sizes. */
  function OpenStatus(f: Files, opens: bool): FileGridStatus {
    if !ValidDescriptor(f.d) then FileGridStatus.InvalidInput
    else if 4 * SampleCount(f.d) > U64_MAX then SizeOverflow
    else if !ExactFiles(f) then FileSizeMismatch
    else if !opens then FileOpenFailure
    else FileGridStatus.Ok
  }

  /** Files are opened exactly for a grid with an extent whose bytes can be counted, when they have four bytes a density and two
      a material; a reason for refusing them is true. */
  lemma FilesOpenExactly(f: Files, opens: bool)
    ensures
      var n := f.d.dimX * f.d.dimY * f.d.dimZ;
      var extent := f.d.dimX >= 1 && f.d.dimY >= 1 && f.d.dimZ >= 1 && 1 <= f.d.spacing <= I64_MAX;
      var sizes := |f.densities| == 4 * n && (f.materials.Some? ==> |f.materials.value| == 2 * n);
      var status := OpenStatus(f, opens);
      && (status == FileGridStatus.Ok <==> extent && 4 * n <= U64_MAX && sizes && opens)
      && (status == FileGridStatus.InvalidInput <==> !extent)
      && (status == SizeOverflow <==> extent && 4 * n > U64_MAX)
      && (status == FileSizeMismatch ==> !sizes)
      && (status == FileOpenFailure ==> !opens)
  {}

  class DenseFileGridSource {
    var initialized: bool
    var files: Files
    const cache: array<Slot>

    ghost predicate Valid()
      reads this, cache
    {
      cache.Length == CACHE_SLOTS && ShapedCache(cache[..]) && (initialized ==> ExactFiles(files))
    }

    constructor ()
      ensures Valid() && !initialized && fresh(cache)
    {
      initialized := false;
      files := Files(Descriptor(GridPoint(0, 0, 0), 0, 0, 0, 1, 0), [], None);
      cache := new Slot[CACHE_SLOTS](_ => EMPTY_SLOT);
    }

    /** All slots unused; files of exactly the right size, or a refusal. */
    method Initialize(f: Files, opens: bool) returns (status: FileGridStatus)
      requires Valid()
      modifies this, cache
      ensures Valid() && status == OpenStatus(f, opens) && (initialized <==> status == FileGridStatus.Ok)
      ensures initialized ==> files == f && cache[..] == FreshCache()
    {
      initialized := false;
      files := Files(Descriptor(GridPoint(0, 0, 0), 0, 0, 0, 1, 0), [], None);
      for i := 0 to CACHE_SLOTS
        invariant cache.Length == CACHE_SLOTS && !initialized
        invariant forall k :: 0 <= k < i ==> cache[k] == EMPTY_SLOT
        modifies cache
      {
        cache[i] := EMPTY_SLOT;
      }
      assert cache[..] == FreshCache();
      var d := f.d;
      if d.dimX == 0 || d.dimY == 0 || d.dimZ == 0 || d.spacing == 0 || d.spacing > I64_MAX { return FileGridStatus.InvalidInput; }
      PlaneFits(d, U64_MAX);
      ProductFits(d.dimX, d.dimY, U64_MAX);
      var plane := MultiplyFits(d.dimX, d.dimY, U64_MAX);
      if plane.None? { return SizeOverflow; }
      ProductFits(plane.value, d.dimZ, U64_MAX);
      var samples := MultiplyFits(plane.value, d.dimZ, U64_MAX);
      if samples.None? { return SizeOverflow; }
      ProductFits(samples.value, 4, U64_MAX);
      ProductFits(samples.value, 2, U64_MAX);
      var densityBytes, materialBytes := MultiplyFits(samples.value, 4, U64_MAX), MultiplyFits(samples.value, 2, U64_MAX);
      if densityBytes.None? || materialBytes.None? { return SizeOverflow; }
      if |f.densities| != densityBytes.value || (f.materials.Some? && |f.materials.value| != materialBytes.value) {
        return FileSizeMismatch;
      }
      if !opens { return FileOpenFailure; }
      files, initialized := f, true;
      return FileGridStatus.Ok;
    }

    /** Reads a block into slot i; every offset stays inside the files. */
    method LoadBlock(row: nat, block: nat, i: nat, io: Reads) returns (ok: bool)
      requires Valid() && initialized && row < RowCount(files.d) && BlockStart(block) < files.d.dimX && i < CACHE_SLOTS
      modifies cache
      ensures Valid() && cache[..] == old(cache[..])[i := Loaded(files, row, block, old(cache[i]), io)]
      ensures ok <==> LoadSucceeds(files, io)
    {
      BlockLiesInFile(files.d, row, block);
      var n := BlockCount(files.d, block);
      var first := FirstSample(files.d, row, block);
      var entry := cache[i];
      var densities := files.densities[4 * first..4 * first + 4 * n];
      entry := entry.(densities := Overwrite(entry.densities, Arriving(densities, io.density)));
      cache[i] := entry;
      assert Overwrite(entry.materials, []) == entry.materials;
      if !io.density.Whole? { return false; }
      if files.materials.Some? {
        var materials := files.materials.value[2 * first..2 * first + 2 * n];
        entry := entry.(materials := Overwrite(entry.materials, Arriving(materials, io.material)));
        cache[i] := entry;
        if !io.material.Whole? { return false; }
      }
      cache[i] := entry.(row := row, block := block, count := n);
      return true;
    }

    /** One call: the answer and the cache afterwards are those of the specification, whatever the reads do. */
    method Sample(point: GridPoint, io: Reads) returns (r: Option<GridSample>)
      requires Valid()
      modifies cache
      ensures Valid()
      ensures initialized ==> Answer(cache[..], r) == CachedSample(files, old(cache[..]), point, io)
      ensures !initialized ==> r == None && cache[..] == old(cache[..])
    {
      if !initialized { return None; }
      var place := PlaceOf(files.d, point);
      if place.None? { return None; }
      var p := place.value;
      IndicesAreExact(files.d, p, p);
      var row, block := Row(files.d, p), p.x / BLOCK_SAMPLES;
      var i := SlotIndex(row, block);
      hide SlotIndex, Loaded, IndexOf, Row, RowCount, SampleCount, Number32, Number16;
      if cache[i].row != row || cache[i].block != block {
        var ok := LoadBlock(row, block, i, io);
        if !ok { return None; }
      }
      var local := p.x - BlockStart(block);
      if local >= cache[i].count { return None; }
      return Some(GridSample(Number32(cache[i].densities, local),
        if files.materials.Some? then Number16(cache[i].materials, local) else files.d.defaultMaterial));
    }
  }
}
